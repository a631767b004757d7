/**
 Text helpers shared by the two small languages: character classes, trimming and
 splitting.
 */
module TextTools {
  /** The characters of \w. */
  predicate IsWord(c: char) {
    'a' <= c <= 'z' || 'A' <= c <= 'Z' || '0' <= c <= '9' || c == '_'
  }

  /** The characters a trim takes off: Unicode white space. */
  predicate IsSpace(c: char) {
    var x := c as int;
    || 0x09 <= x <= 0x0d || x == 0x20 || x == 0x85 || x == 0xa0 || x == 0x1680
    || 0x2000 <= x <= 0x200a || x == 0x2028 || x == 0x2029 || x == 0x202f || x == 0x205f || x == 0x3000
  }

  predicate All(p: char -> bool, s: string) {
    forall i :: 0 <= i < |s| ==> p(s[i])
  }

  /** Nothing to trim at either end. */
  predicate Trimmed(s: string) {
    s != "" ==> !IsSpace(s[0]) && !IsSpace(s[|s| - 1])
  }

  function TrimLeft(s: string): string {
    if s != "" && IsSpace(s[0]) then TrimLeft(s[1..]) else s
  }

  function TrimRight(s: string): string {
    if s != "" && IsSpace(s[|s| - 1]) then TrimRight(s[..|s| - 1]) else s
  }

  function Trim(s: string): string {
    TrimRight(TrimLeft(s))
  }

  /** The length of the longest prefix of such characters. */
  function RunLength(p: char -> bool, s: string): (n: nat)
    ensures n <= |s|
  {
    if s == "" || !p(s[0]) then 0 else 1 + RunLength(p, s[1..])
  }

  /** The position of the first c, or the length. */
  function IndexOf(s: string, c: char): (n: nat)
    ensures n <= |s|
  {
    if s == "" || s[0] == c then 0 else 1 + IndexOf(s[1..], c)
  }

  lemma {:induction false} RunLengthIs(p: char -> bool, run: string, rest: string)
    requires All(p, run) && (rest == "" || !p(rest[0]))
    ensures RunLength(p, run + rest) == |run|
  {
    if run == "" {
      assert run + rest == rest;
    } else {
      assert (run + rest)[1..] == run[1..] + rest;
      RunLengthIs(p, run[1..], rest);
    }
  }

  lemma {:induction false} RunIsMaximal(p: char -> bool, s: string)
    ensures var n := RunLength(p, s); All(p, s[..n]) && (n < |s| ==> !p(s[n]))
  {
    if s != "" && p(s[0]) {
      RunIsMaximal(p, s[1..]);
      var n := RunLength(p, s);
      assert s[..n] == [s[0]] + s[1..][..n - 1];
    }
  }

  lemma {:induction false} IndexOfIs(before: string, c: char, rest: string)
    requires c !in before && (rest == "" || rest[0] == c)
    ensures IndexOf(before + rest, c) == |before|
  {
    if before == "" {
      assert before + rest == rest;
    } else {
      assert (before + rest)[1..] == before[1..] + rest;
      IndexOfIs(before[1..], c, rest);
    }
  }

  /** The two sides of one character. */
  lemma Cut(a: string, c: char, b: string)
    ensures var s := a + ([c] + b); s[..|a|] == a && s[|a|] == c && s[|a| + 1..] == b
  {
  }

  function Split(s: string, c: char): seq<string>
    decreases |s|
  {
    var n := IndexOf(s, c);
    if n == |s| then [s] else [s[..n]] + Split(s[n + 1..], c)
  }

  lemma SplitOne(s: string, c: char)
    requires c !in s
    ensures Split(s, c) == [s]
  {
    IndexOfIs(s, c, "");
    assert s + "" == s;
  }

  lemma SplitFirst(part: string, c: char, rest: string)
    requires c !in part
    ensures Split(part + [c] + rest, c) == [part] + Split(rest, c)
  {
    var s := part + [c] + rest;
    assert s == part + ([c] + rest);
    IndexOfIs(part, c, [c] + rest);
    Cut(part, c, rest);
  }

  // ---- What the pieces are made of ----

  /** Every character of a occurs in s. */
  ghost predicate Within(a: string, s: string) {
    forall c :: c in a ==> c in s
  }

  lemma {:induction false} NoneBefore(s: string, c: char)
    ensures c !in s[..IndexOf(s, c)]
  {
    if s != "" && s[0] != c {
      NoneBefore(s[1..], c);
      var n := IndexOf(s, c);
      assert s[..n] == [s[0]] + s[1..][..n - 1];
    }
  }

  lemma {:induction false} FirstIsThere(s: string, c: char)
    requires IndexOf(s, c) < |s|
    ensures s[IndexOf(s, c)] == c
  {
    if s != "" && s[0] != c {
      FirstIsThere(s[1..], c);
    }
  }

  lemma CutAtFirst(s: string, c: char)
    requires IndexOf(s, c) < |s|
    ensures var n := IndexOf(s, c); s == s[..n] + ([c] + s[n + 1..])
  {
    FirstIsThere(s, c);
  }

  lemma {:induction false} PartsAreFree(s: string, c: char)
    ensures forall part :: part in Split(s, c) ==> c !in part && Within(part, s)
    decreases |s|
  {
    var n := IndexOf(s, c);
    NoneBefore(s, c);
    if n == |s| {
      assert s[..n] == s;
    } else {
      PartsAreFree(s[n + 1..], c);
      assert Within(s[n + 1..], s) && Within(s[..n], s);
    }
  }

  /** The parts with the character between each two of them. */
  function Rejoined(parts: seq<string>, c: char): string {
    if parts == [] then "" else if |parts| == 1 then parts[0] else parts[0] + ([c] + Rejoined(parts[1..], c))
  }

  /** Splitting loses nothing: with PartsAreFree this says what the parts are. */
  lemma {:induction false} SplitRejoins(s: string, c: char)
    ensures Split(s, c) != [] && Rejoined(Split(s, c), c) == s
    decreases |s|
  {
    var n := IndexOf(s, c);
    if n < |s| {
      var rest := s[n + 1..];
      SplitRejoins(rest, c);
      CutAtFirst(s, c);
      assert ([s[..n]] + Split(rest, c))[1..] == Split(rest, c);
    }
  }

  lemma {:induction false} TrimLeftEnds(s: string)
    ensures var r := TrimLeft(s); Within(r, s) && (r != "" ==> !IsSpace(r[0]))
  {
    if s != "" && IsSpace(s[0]) {
      TrimLeftEnds(s[1..]);
    }
  }

  lemma {:induction false} TrimRightEnds(s: string)
    ensures var r := TrimRight(s); r <= s && (r != "" ==> !IsSpace(r[|r| - 1]))
  {
    if s != "" && IsSpace(s[|s| - 1]) {
      TrimRightEnds(s[..|s| - 1]);
    }
  }

  lemma TrimIsTrimmed(s: string)
    ensures Trimmed(Trim(s)) && Within(Trim(s), s)
  {
    TrimLeftEnds(s);
    TrimRightEnds(TrimLeft(s));
  }

  lemma {:induction false} TrimLeftParts(s: string) returns (a: string)
    ensures All(IsSpace, a) && s == a + TrimLeft(s)
  {
    a := "";
    if s != "" && IsSpace(s[0]) {
      var rest := TrimLeftParts(s[1..]);
      a := [s[0]] + rest;
      assert s == [s[0]] + s[1..];
    }
  }

  lemma {:induction false} TrimRightParts(s: string) returns (b: string)
    ensures All(IsSpace, b) && s == TrimRight(s) + b
  {
    b := "";
    if s != "" && IsSpace(s[|s| - 1]) {
      var n := |s| - 1;
      var rest := TrimRightParts(s[..n]);
      b := rest + [s[n]];
      assert s == s[..n] + [s[n]];
    }
  }

  /** What a trim takes off is space on either side, and what it leaves has none at
      its ends. */
  lemma TrimParts(s: string) returns (a: string, b: string)
    ensures All(IsSpace, a) && All(IsSpace, b) && s == a + Trim(s) + b && Trimmed(Trim(s))
  {
    a := TrimLeftParts(s);
    b := TrimRightParts(TrimLeft(s));
    TrimIsTrimmed(s);
  }

  lemma TrimOfTrimmed(pad: string, s: string)
    requires s != "" && Trimmed(s) && (pad == "" || pad == " ")
    ensures Trim(pad + s) == s
  {
    assert TrimLeft(s) == s && TrimRight(s) == s;
    if pad == " " {
      assert (pad + s)[1..] == s;
      assert TrimLeft(pad + s) == TrimLeft(s);
    } else {
      assert pad + s == s;
    }
  }
}
