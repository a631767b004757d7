/**
 Rule expressions such as GeoCountry(`KR`) && !ClientIP(`10.0.0.0/8`): a scanner
 that finds the matchers, one operator for the whole text, and an evaluator.
 */
module Expression {
  import opened Options
  import opened TextTools

  datatype Matcher = Matcher(kind: string, values: seq<string>, negated: bool)

  datatype RuleExpression = RuleExpression(raw: string, matchers: seq<Matcher>, operator: string)

  // ---- Scanning ----

  /** One match of the matcher pattern at the head of a text. */
  datatype Match = Match(negated: bool, kind: string, args: string, length: nat)

  /** A word and a parenthesis up to the next ')'. Each part is forced, so a
      match is unique if there is one. */
  function MatchWord(negated: bool, t: string): (r: Option<Match>)
    ensures r.Some? ==> 0 < r.value.length <= |t|
  {
    var k := RunLength(IsWord, t);
    if k == 0 || k == |t| || t[k] != '(' then None else
      var tail := t[k + 1..];
      var n := IndexOf(tail, ')');
      if n == |tail| then None else Some(Match(negated, t[..k], tail[..n], k + n + 2))
  }

  /** The same after an optional '!'. */
  function MatchHere(s: string): (r: Option<Match>)
    ensures r.Some? ==> 0 < r.value.length <= |s|
  {
    if s != "" && s[0] == '!' then
      var r := MatchWord(true, s[1..]);
      if r.None? then None else Some(r.value.(length := r.value.length + 1))
    else
      MatchWord(false, s)
  }

  /** All matches, leftmost first, none overlapping. */
  function FindAll(s: string): seq<Match>
    decreases |s|
  {
    if s == "" then []
    else
      var m := MatchHere(s);
      if m.Some? then [m.value] + FindAll(s[m.value.length..]) else FindAll(s[1..])
  }

  function Strip(s: string, c: char): string {
    if s == "" then "" else (if s[0] == c then "" else [s[0]]) + Strip(s[1..], c)
  }

  /** A part trimmed, or nothing if that leaves none. */
  function Kept(part: string): seq<string> {
    var v := Trim(part);
    if v == "" then [] else [v]
  }

  function Clean(parts: seq<string>): seq<string> {
    if parts == [] then [] else Kept(parts[0]) + Clean(parts[1..])
  }

  function ValuesOf(args: string): seq<string> {
    if args == "" then [] else Clean(Split(Strip(args, '`'), ','))
  }

  function MatcherOf(m: Match): Matcher {
    Matcher(m.kind, ValuesOf(m.args), m.negated)
  }

  function MatchersOf(found: seq<Match>): (ms: seq<Matcher>)
    ensures |ms| == |found| && forall i :: 0 <= i < |ms| ==> ms[i] == MatcherOf(found[i])
  {
    seq(|found|, i requires 0 <= i < |found| => MatcherOf(found[i]))
  }

  /** The character twice in a row. */
  predicate Doubled(s: string, c: char) {
    exists i :: 0 <= i < |s| - 1 && s[i] == c && s[i + 1] == c
  }

  function OperatorOf(s: string): string {
    if Doubled(s, '|') then "||" else if Doubled(s, '&') then "&&" else ""
  }

  function Parse(rule: string): Option<RuleExpression> {
    var ms := MatchersOf(FindAll(rule));
    if ms == [] then None else Some(RuleExpression(rule, ms, OperatorOf(rule)))
  }

  // ---- Printing ----

  function Quote(v: string): string {
    "`" + v + "`"
  }

  function ShowValues(values: seq<string>): string {
    if values == [] then ""
    else if |values| == 1 then Quote(values[0])
    else Quote(values[0]) + (", " + ShowValues(values[1..]))
  }

  function Sign(m: Matcher): string {
    if m.negated then "!" else ""
  }

  function Body(m: Matcher): string {
    m.kind + ("(" + (ShowValues(m.values) + ")"))
  }

  function Show(m: Matcher): string {
    Sign(m) + Body(m)
  }

  /** The matchers with an operator between each two of them. */
  function Print(ms: seq<Matcher>, ops: seq<string>): string
    requires |ms| == |ops| + 1
  {
    if ops == [] then Show(ms[0])
    else Show(ms[0]) + (" " + ops[0] + " ") + Print(ms[1..], ops[1..])
  }

  predicate WellFormedValue(v: string) {
    v != "" && Trimmed(v) && ')' !in v && '`' !in v && ',' !in v
  }

  predicate WellFormed(m: Matcher) {
    m.kind != "" && All(IsWord, m.kind) && forall i :: 0 <= i < |m.values| ==> WellFormedValue(m.values[i])
  }

  predicate Operators(ops: seq<string>) {
    forall i :: 0 <= i < |ops| ==> ops[i] == "&&" || ops[i] == "||"
  }

  // ---- What the scanner makes of a printed text ----

  lemma {:induction false} ShownHasNoParen(values: seq<string>)
    requires forall i :: 0 <= i < |values| ==> WellFormedValue(values[i])
    ensures ')' !in ShowValues(values)
  {
    if |values| > 1 {
      ShownHasNoParen(values[1..]);
    }
  }

  lemma MatchOfWord(negated: bool, kind: string, args: string, rest: string)
    requires kind != "" && All(IsWord, kind) && ')' !in args
    ensures MatchWord(negated, kind + ("(" + (args + (")" + rest)))) == Some(Match(negated, kind, args, |kind| + |args| + 2))
  {
    var tail := args + (")" + rest);
    RunLengthIs(IsWord, kind, "(" + tail);
    Cut(kind, '(', tail);
    IndexOfIs(args, ')', ")" + rest);
    Cut(args, ')', rest);
  }

  lemma MatchOfBody(m: Matcher, rest: string)
    requires WellFormed(m)
    ensures MatchWord(m.negated, Body(m) + rest) == Some(Match(m.negated, m.kind, ShowValues(m.values), |Body(m)|))
  {
    var args := ShowValues(m.values);
    assert Body(m) + rest == m.kind + ("(" + (args + (")" + rest)));
    ShownHasNoParen(m.values);
    MatchOfWord(m.negated, m.kind, args, rest);
  }

  lemma MatchNegated(t: string)
    requires MatchWord(true, t).Some?
    ensures var m := MatchWord(true, t).value; MatchHere("!" + t) == Some(m.(length := m.length + 1))
  {
    var s := "!" + t;
    assert s[0] == '!' && s[1..] == t;
  }

  lemma MatchPlain(t: string)
    requires t != "" && t[0] != '!'
    ensures MatchHere("" + t) == MatchWord(false, t)
  {
    assert "" + t == t;
  }

  lemma MatchOfShown(m: Matcher, rest: string)
    requires WellFormed(m)
    ensures MatchHere(Show(m) + rest) == Some(Match(m.negated, m.kind, ShowValues(m.values), |Show(m)|))
  {
    var t := Body(m) + rest;
    MatchOfBody(m, rest);
    assert t[0] == m.kind[0];
    assert Show(m) + rest == Sign(m) + t;
    if m.negated {
      MatchNegated(t);
    } else {
      MatchPlain(t);
    }
  }

  lemma SkipOne(c: char, rest: string)
    requires !IsWord(c) && c != '!'
    ensures FindAll([c] + rest) == FindAll(rest)
  {
    assert ([c] + rest)[1..] == rest;
  }

  lemma SkipSeparator(op: string, rest: string)
    requires op == "&&" || op == "||"
    ensures FindAll((" " + op + " ") + rest) == FindAll(rest)
  {
    var d := op[1];
    assert (" " + op + " ") + rest == [' '] + ([d] + ([d] + ([' '] + rest)));
    SkipOne(' ', [d] + ([d] + ([' '] + rest)));
    SkipOne(d, [d] + ([' '] + rest));
    SkipOne(d, [' '] + rest);
    SkipOne(' ', rest);
  }

  lemma {:induction false} MatchesOfPrinted(ms: seq<Matcher>, ops: seq<string>)
    requires |ms| == |ops| + 1 && Operators(ops) && forall i :: 0 <= i < |ms| ==> WellFormed(ms[i])
    ensures MatchersOf(FindAll(Print(ms, ops))) == ms
  {
    if ops == [] {
      FirstOfPrinted(ms[0], "");
      assert Show(ms[0]) + "" == Show(ms[0]);
      assert ms == [ms[0]];
    } else {
      var rest := Print(ms[1..], ops[1..]);
      var tail := (" " + ops[0] + " ") + rest;
      assert Print(ms, ops) == Show(ms[0]) + tail;
      FirstOfPrinted(ms[0], tail);
      SkipSeparator(ops[0], rest);
      MatchesOfPrinted(ms[1..], ops[1..]);
      assert ms == [ms[0]] + ms[1..];
    }
  }

  lemma FirstFound(m: Matcher, rest: string)
    requires WellFormed(m)
    ensures FindAll(Show(m) + rest) == [Match(m.negated, m.kind, ShowValues(m.values), |Show(m)|)] + FindAll(rest)
  {
    MatchOfShown(m, rest);
    assert (Show(m) + rest)[|Show(m)|..] == rest;
  }

  lemma MatchersOfMore(first: Match, rest: seq<Match>)
    ensures MatchersOf([first] + rest) == [MatcherOf(first)] + MatchersOf(rest)
  {
  }

  /** The first matcher of a text, and what follows it. */
  lemma FirstOfPrinted(m: Matcher, rest: string)
    requires WellFormed(m)
    ensures MatchersOf(FindAll(Show(m) + rest)) == [m] + MatchersOf(FindAll(rest))
  {
    FirstFound(m, rest);
    MatchersOfMore(Match(m.negated, m.kind, ShowValues(m.values), |Show(m)|), FindAll(rest));
    ValuesRoundTrip(m.values);
  }

  // ---- What becomes of the values ----

  function Joined(values: seq<string>): string {
    if values == [] then "" else if |values| == 1 then values[0] else values[0] + (", " + Joined(values[1..]))
  }

  lemma {:induction false} StripJoin(a: string, b: string, c: char)
    ensures Strip(a + b, c) == Strip(a, c) + Strip(b, c)
  {
    if a == "" {
      assert a + b == b;
    } else {
      assert (a + b)[1..] == a[1..] + b;
      StripJoin(a[1..], b, c);
    }
  }

  lemma {:induction false} StripNothing(s: string, c: char)
    requires c !in s
    ensures Strip(s, c) == s
  {
    if s != "" {
      StripNothing(s[1..], c);
    }
  }

  lemma StripQuoted(v: string)
    requires '`' !in v
    ensures Strip(Quote(v), '`') == v
  {
    StripJoin("`" + v, "`", '`');
    StripJoin("`", v, '`');
    StripNothing(v, '`');
  }

  lemma {:induction false} StripShown(values: seq<string>)
    requires forall i :: 0 <= i < |values| ==> WellFormedValue(values[i])
    ensures Strip(ShowValues(values), '`') == Joined(values)
  {
    if values != [] {
      StripQuoted(values[0]);
      if |values| > 1 {
        var rest := ShowValues(values[1..]);
        StripShown(values[1..]);
        StripJoin(Quote(values[0]), ", " + rest, '`');
        StripJoin(", ", rest, '`');
        StripNothing(", ", '`');
      }
    }
  }

  lemma JoinedMore(pad: string, v: string, rest: string)
    ensures pad + (v + (", " + rest)) == (pad + v) + "," + (" " + rest)
  {
  }

  lemma {:induction false} CleanSplit(pad: string, values: seq<string>)
    requires values != [] && (pad == "" || pad == " ")
    requires forall i :: 0 <= i < |values| ==> WellFormedValue(values[i])
    ensures Clean(Split(pad + Joined(values), ',')) == values
    decreases values
  {
    var part := pad + values[0];
    assert Kept(part) == [values[0]] by {
      TrimOfTrimmed(pad, values[0]);
    }
    assert ',' !in part;
    if |values| == 1 {
      SplitOne(part, ',');
      CleanMore(part, []);
    } else {
      var rest := " " + Joined(values[1..]);
      assert Split(pad + Joined(values), ',') == [part] + Split(rest, ',') by {
        JoinedMore(pad, values[0], Joined(values[1..]));
        SplitFirst(part, ',', rest);
      }
      assert Clean(Split(rest, ',')) == values[1..] by {
        CleanSplit(" ", values[1..]);
      }
      CleanMore(part, Split(rest, ','));
    }
  }

  lemma CleanMore(part: string, rest: seq<string>)
    ensures Clean([part] + rest) == Kept(part) + Clean(rest)
  {
    assert ([part] + rest)[1..] == rest;
  }

  lemma ValuesRoundTrip(values: seq<string>)
    requires forall i :: 0 <= i < |values| ==> WellFormedValue(values[i])
    ensures ValuesOf(ShowValues(values)) == values
  {
    if values != [] {
      StripShown(values);
      CleanSplit("", values);
      assert "" + Joined(values) == Joined(values);
    }
  }

  // ---- Which operator a printed text gets ----

  lemma Glue(a: string, b: string, c: char)
    requires a == "" || b == "" || a[|a| - 1] != c || b[0] != c
    ensures Doubled(a + b, c) <==> Doubled(a, c) || Doubled(b, c)
  {
    var s := a + b;
    if Doubled(s, c) {
      var i :| 0 <= i < |s| - 1 && s[i] == c && s[i + 1] == c;
      if i + 1 < |a| {
        assert a[i] == c && a[i + 1] == c;
      } else if i >= |a| {
        assert b[i - |a|] == c && b[i - |a| + 1] == c;
      }
    }
    if Doubled(a, c) {
      var i :| 0 <= i < |a| - 1 && a[i] == c && a[i + 1] == c;
      assert s[i] == c && s[i + 1] == c;
    }
    if Doubled(b, c) {
      var i :| 0 <= i < |b| - 1 && b[i] == c && b[i + 1] == c;
      assert s[|a| + i] == c && s[|a| + i + 1] == c;
    }
  }

  predicate OperatorChar(c: char) {
    c == '|' || c == '&'
  }

  predicate SomeDoubled(values: seq<string>, c: char) {
    exists i :: 0 <= i < |values| && Doubled(values[i], c)
  }

  lemma QuotedDoubled(v: string, c: char)
    requires OperatorChar(c)
    ensures Doubled(Quote(v), c) <==> Doubled(v, c)
  {
    Glue("`", v, c);
    Glue("`" + v, "`", c);
  }

  lemma {:induction false} ShownDoubled(values: seq<string>, c: char)
    requires OperatorChar(c)
    ensures Doubled(ShowValues(values), c) <==> SomeDoubled(values, c)
  {
    if values != [] {
      var first, rest := Quote(values[0]), ShowValues(values[1..]);
      QuotedDoubled(values[0], c);
      assert SomeDoubled(values, c) <==> Doubled(values[0], c) || SomeDoubled(values[1..], c) by {
        assert values == [values[0]] + values[1..];
      }
      if |values| > 1 {
        ShownDoubled(values[1..], c);
        Glue(first, ", " + rest, c);
        Glue(", ", rest, c);
      }
    }
  }

  lemma PlainText(s: string, c: char)
    requires c !in s
    ensures !Doubled(s, c)
  {
    assert forall i :: 0 <= i < |s| ==> s[i] in s;
  }

  lemma MatcherDoubled(m: Matcher, c: char)
    requires WellFormed(m) && OperatorChar(c)
    ensures Doubled(Show(m), c) <==> SomeDoubled(m.values, c)
  {
    var head, args := Sign(m) + m.kind + "(", ShowValues(m.values);
    assert Show(m) == head + args + ")";
    assert forall x :: x in m.kind ==> IsWord(x);
    PlainText(head, c);
    ShownDoubled(m.values, c);
    Glue(head, args, c);
    Glue(head + args, ")", c);
  }

  predicate SomeMatcherDoubled(ms: seq<Matcher>, c: char) {
    exists i :: 0 <= i < |ms| && SomeDoubled(ms[i].values, c)
  }

  lemma {:induction false} PrintedDoubled(ms: seq<Matcher>, ops: seq<string>, c: char)
    requires |ms| == |ops| + 1 && Operators(ops) && OperatorChar(c)
    requires forall i :: 0 <= i < |ms| ==> WellFormed(ms[i])
    ensures Doubled(Print(ms, ops), c) <==> [c, c] in ops || SomeMatcherDoubled(ms, c)
  {
    MatcherDoubled(ms[0], c);
    assert SomeMatcherDoubled(ms, c) <==> SomeDoubled(ms[0].values, c) || SomeMatcherDoubled(ms[1..], c) by {
      assert ms == [ms[0]] + ms[1..];
    }
    if ops != [] {
      var shown, op, rest := Show(ms[0]), " " + ops[0] + " ", Print(ms[1..], ops[1..]);
      PrintedDoubled(ms[1..], ops[1..], c);
      Glue(shown, op, c);
      Glue(shown + op, rest, c);
      SeparatorDoubled(ops[0], c);
      assert ops == [ops[0]] + ops[1..];
    }
  }

  lemma SeparatorDoubled(op: string, c: char)
    requires (op == "&&" || op == "||") && OperatorChar(c)
    ensures Doubled(" " + op + " ", c) <==> op == [c, c]
  {
    var s := " " + op + " ";
    assert s[1] == op[0] && s[2] == op[1];
  }

  /** The operator a printed text is read with: "||" if there is one anywhere,
      also inside a value; then "&&" likewise. */
  function OperatorRead(ms: seq<Matcher>, ops: seq<string>): string {
    if "||" in ops || SomeMatcherDoubled(ms, '|') then "||"
    else if "&&" in ops || SomeMatcherDoubled(ms, '&') then "&&"
    else ""
  }

  /** Parsing a printed expression gives back every matcher, whatever the
      operators are; the operator is one for the whole text. */
  lemma ParseOfPrinted(ms: seq<Matcher>, ops: seq<string>)
    requires |ms| == |ops| + 1 && Operators(ops) && forall i :: 0 <= i < |ms| ==> WellFormed(ms[i])
    ensures var text := Print(ms, ops); Parse(text) == Some(RuleExpression(text, ms, OperatorRead(ms, ops)))
  {
    MatchesOfPrinted(ms, ops);
    PrintedDoubled(ms, ops, '|');
    PrintedDoubled(ms, ops, '&');
    assert ['|', '|'] == "||" && ['&', '&'] == "&&";
  }

  /** The operator of a text: none for a single matcher, else the common one. */
  predicate Common(ops: seq<string>, op: string) {
    && (ops == [] ==> op == "")
    && (ops != [] ==> op == "&&" || op == "||")
    && forall i :: 0 <= i < |ops| ==> ops[i] == op
  }

  /** Print and parse: a common operator is recovered exactly when no value hides a
      stronger one. */
  lemma OperatorRecoveredIff(ms: seq<Matcher>, ops: seq<string>, op: string)
    requires |ms| == |ops| + 1 && Common(ops, op) && forall i :: 0 <= i < |ms| ==> WellFormed(ms[i])
    ensures Parse(Print(ms, ops)).Some?
    ensures Parse(Print(ms, ops)).value.operator == op <==>
              && (op != "||" ==> !SomeMatcherDoubled(ms, '|'))
              && (op == "" ==> !SomeMatcherDoubled(ms, '&'))
  {
    ParseOfPrinted(ms, ops);
    if ops != [] {
      assert ops[0] == op && ops[0] in ops;
    }
  }

  /** A text in which a value hides an operator: it is read as a disjunction. */
  lemma HiddenOperator()
    ensures var e := Parse("A(`x||y`) && B(`z`)");
            e.Some? && e.value.matchers == [Matcher("A", ["x||y"], false), Matcher("B", ["z"], false)] && e.value.operator == "||"
  {
    var a, b := Matcher("A", ["x||y"], false), Matcher("B", ["z"], false);
    ParseOfPrinted([a, b], ["&&"]);
    HiddenText(a, b);
    assert SomeMatcherDoubled([a, b], '|') by {
      assert "x||y"[1] == '|' && "x||y"[2] == '|';
      assert Doubled(a.values[0], '|');
      assert SomeDoubled([a, b][0].values, '|');
    }
  }

  lemma HiddenText(a: Matcher, b: Matcher)
    requires a == Matcher("A", ["x||y"], false) && b == Matcher("B", ["z"], false)
    ensures Print([a, b], ["&&"]) == "A(`x||y`) && B(`z`)"
  {
    assert Show(a) == "A(`x||y`)" && Show(b) == "B(`z`)";
    assert Print([a, b][1..], ["&&"][1..]) == Show(b);
  }

  // ---- What a scan finds in any text ----

  /** A text that begins with "!" or not, a word, and a parenthesis up to the next
      ")". */
  ghost predicate Begins(s: string, m: Match, rest: string) {
    && m.kind != "" && All(IsWord, m.kind) && ')' !in m.args && m.length + |rest| == |s|
    && s == (if m.negated then "!" else "") + (m.kind + ("(" + (m.args + (")" + rest))))
  }

  lemma MatchIsWord(negated: bool, t: string) returns (rest: string)
    requires MatchWord(negated, t).Some?
    ensures var m := MatchWord(negated, t).value;
            && m.negated == negated && m.kind != "" && All(IsWord, m.kind) && ')' !in m.args
            && t == m.kind + ("(" + (m.args + (")" + rest))) && m.length + |rest| == |t|
  {
    var m, k := MatchWord(negated, t).value, RunLength(IsWord, t);
    var tail := t[k + 1..];
    rest := tail[|m.args| + 1..];
    assert All(IsWord, m.kind) by {
      RunIsMaximal(IsWord, t);
    }
    assert ')' !in m.args by {
      NoneBefore(tail, ')');
    }
    assert tail == m.args + (")" + rest) by {
      CutAtFirst(tail, ')');
    }
    assert t == m.kind + ("(" + tail);
  }

  lemma MatchBegins(s: string) returns (rest: string)
    requires MatchHere(s).Some?
    ensures Begins(s, MatchHere(s).value, rest)
  {
    if s != "" && s[0] == '!' {
      rest := MatchIsWord(true, s[1..]);
      assert s == "!" + s[1..];
    } else {
      rest := MatchIsWord(false, s);
      assert "" + s == s;
    }
  }

  lemma BeginningMatches(s: string, m: Match, rest: string)
    requires Begins(s, m, rest)
    ensures MatchHere(s) == Some(m)
  {
    var t := m.kind + ("(" + (m.args + (")" + rest)));
    MatchOfWord(m.negated, m.kind, m.args, rest);
    assert t[0] == m.kind[0];
    if m.negated {
      MatchNegated(t);
    } else {
      MatchPlain(t);
    }
  }

  /** A match at the head of a text is exactly such a beginning. */
  lemma MatchIff(s: string, m: Match)
    ensures MatchHere(s) == Some(m) <==> exists rest :: Begins(s, m, rest)
  {
    if MatchHere(s) == Some(m) {
      var rest := MatchBegins(s);
    }
    if rest :| Begins(s, m, rest) {
      BeginningMatches(s, m, rest);
    }
  }

  /** What there is at each place of a text. */
  function Places(s: string): int -> Option<Match> {
    q => if 0 <= q <= |s| then MatchHere(s[q..]) else None
  }

  ghost predicate NoneFrom(at: int -> Option<Match>, from: int, to: int) {
    forall q :: from <= q < to ==> at(q).None?
  }

  /** From a place on, the matches stand in a text of this length one after the
      other, and at no place between them, before or after is there one. */
  ghost predicate Scanned(at: int -> Option<Match>, length: nat, from: int, found: seq<Match>)
    decreases |found|, 1
  {
    if found == [] then NoneFrom(at, from, length + 1) else exists p :: FoundAt(at, length, from, p, found)
  }

  ghost predicate FoundAt(at: int -> Option<Match>, length: nat, from: int, p: int, found: seq<Match>)
    requires found != []
    decreases |found|, 0
  {
    && from <= p <= length && NoneFrom(at, from, p) && at(p) == Some(found[0])
    && Scanned(at, length, p + found[0].length, found[1..])
  }

  lemma FindAllFrom(s: string, from: nat)
    requires from <= |s|
    ensures var m := Places(s)(from);
            && (m.Some? ==> from + m.value.length <= |s| && FindAll(s[from..]) == [m.value] + FindAll(s[from + m.value.length..]))
            && (m.None? && from < |s| ==> FindAll(s[from..]) == FindAll(s[from + 1..]))
            && (from == |s| ==> m.None? && FindAll(s[from..]) == [])
  {
    var here := s[from..];
    var m := MatchHere(here);
    if m.Some? {
      assert here[m.value.length..] == s[from + m.value.length..];
    } else if from < |s| {
      assert here[1..] == s[from + 1..];
    }
  }

  lemma FoundLater(at: int -> Option<Match>, length: nat, from: int, found: seq<Match>)
    requires at(from).None? && Scanned(at, length, from + 1, found)
    ensures Scanned(at, length, from, found)
  {
    if found != [] {
      var p :| FoundAt(at, length, from + 1, p, found);
      assert FoundAt(at, length, from, p, found);
    }
  }

  lemma FoundFirst(at: int -> Option<Match>, length: nat, from: int, m: Match, rest: seq<Match>)
    requires from <= length && at(from) == Some(m) && Scanned(at, length, from + m.length, rest)
    ensures Scanned(at, length, from, [m] + rest)
  {
    assert ([m] + rest)[1..] == rest;
    assert FoundAt(at, length, from, from, [m] + rest);
  }

  lemma NothingFound(at: int -> Option<Match>, length: nat, from: int, found: seq<Match>)
    requires NoneFrom(at, from, length + 1) && Scanned(at, length, from, found)
    ensures found == []
  {
  }

  lemma FirstIsScanned(s: string, from: nat)
    requires from <= |s| && Places(s)(from).Some?
    requires var next := from + Places(s)(from).value.length; next <= |s| ==> Scanned(Places(s), |s|, next, FindAll(s[next..]))
    ensures Scanned(Places(s), |s|, from, FindAll(s[from..]))
  {
    FindAllFrom(s, from);
    var m := Places(s)(from).value;
    FoundFirst(Places(s), |s|, from, m, FindAll(s[from + m.length..]));
  }

  lemma RestIsScanned(s: string, from: nat)
    requires from < |s| && Places(s)(from).None? && Scanned(Places(s), |s|, from + 1, FindAll(s[from + 1..]))
    ensures Scanned(Places(s), |s|, from, FindAll(s[from..]))
  {
    FindAllFrom(s, from);
    FoundLater(Places(s), |s|, from, FindAll(s[from + 1..]));
  }

  lemma EndIsScanned(s: string)
    ensures Scanned(Places(s), |s|, |s|, FindAll(s[|s|..]))
  {
    FindAllFrom(s, |s|);
  }

  lemma {:induction false} FindAllScans(s: string, from: nat)
    requires from <= |s|
    ensures Scanned(Places(s), |s|, from, FindAll(s[from..]))
    decreases |s| - from
  {
    if Places(s)(from).Some? {
      var next := from + Places(s)(from).value.length;
      if next <= |s| {
        FindAllScans(s, next);
      }
      FirstIsScanned(s, from);
    } else if from < |s| {
      FindAllScans(s, from + 1);
      RestIsScanned(s, from);
    } else {
      EndIsScanned(s);
    }
  }

  /** Every scan of a text finds the same. */
  lemma {:induction false} ScanIsUnique(at: int -> Option<Match>, length: nat, from: int, a: seq<Match>, b: seq<Match>)
    requires Scanned(at, length, from, a) && Scanned(at, length, from, b)
    ensures a == b
    decreases |a|
  {
    if a == [] {
      NothingFound(at, length, from, b);
    } else if b == [] {
      NothingFound(at, length, from, a);
    } else {
      var p :| FoundAt(at, length, from, p, a);
      var q :| FoundAt(at, length, from, q, b);
      assert p == q;
      ScanIsUnique(at, length, p + a[0].length, a[1..], b[1..]);
      assert a == [a[0]] + a[1..] && b == [b[0]] + b[1..];
    }
  }

  /** All matches of a text, leftmost first, none overlapping, and no other. */
  lemma FindAllIff(s: string, found: seq<Match>)
    ensures FindAll(s) == found <==> Scanned(Places(s), |s|, 0, found)
  {
    FindAllScans(s, 0);
    assert s[0..] == s;
    if Scanned(Places(s), |s|, 0, found) {
      ScanIsUnique(Places(s), |s|, 0, found, FindAll(s));
    }
  }

  // ---- What any text is read as ----
  // ---- What any text is read as ----
  // ---- What any text is read as ----

  lemma {:induction false} StripsAll(s: string, c: char)
    ensures c !in Strip(s, c) && Within(Strip(s, c), s)
  {
    if s != "" {
      StripsAll(s[1..], c);
    }
  }

  lemma {:induction false} CleanIsWellFormed(parts: seq<string>)
    requires forall part :: part in parts ==> ')' !in part && '`' !in part && ',' !in part
    ensures forall v :: v in Clean(parts) ==> WellFormedValue(v)
  {
    if parts != [] {
      TrimIsTrimmed(parts[0]);
      CleanIsWellFormed(parts[1..]);
    }
  }

  lemma ValuesAreWellFormed(args: string)
    requires ')' !in args
    ensures forall v :: v in ValuesOf(args) ==> WellFormedValue(v)
  {
    var text := Strip(args, '`');
    StripsAll(args, '`');
    PartsAreFree(text, ',');
    CleanIsWellFormed(Split(text, ','));
  }

  lemma WordIsWellFormed(negated: bool, t: string)
    requires MatchWord(negated, t).Some?
    ensures WellFormed(MatcherOf(MatchWord(negated, t).value))
  {
    var k := RunLength(IsWord, t);
    RunIsMaximal(IsWord, t);
    NoneBefore(t[k + 1..], ')');
    ValuesAreWellFormed(MatchWord(negated, t).value.args);
  }

  lemma {:induction false} FoundIsWellFormed(s: string)
    ensures forall m :: m in FindAll(s) ==> WellFormed(MatcherOf(m))
    decreases |s|
  {
    if s != "" {
      var m := MatchHere(s);
      if m.Some? {
        if s[0] == '!' {
          WordIsWellFormed(true, s[1..]);
        } else {
          WordIsWellFormed(false, s);
        }
        FoundIsWellFormed(s[m.value.length..]);
      } else {
        FoundIsWellFormed(s[1..]);
      }
    }
  }

  /** Whatever the text, its matchers are well formed: they print and parse back. */
  lemma ParsedIsWellFormed(s: string)
    requires Parse(s).Some?
    ensures forall i :: 0 <= i < |Parse(s).value.matchers| ==> WellFormed(Parse(s).value.matchers[i])
  {
    FoundIsWellFormed(s);
  }

  /** Print and parse give the matchers back exactly when all are well formed. */
  lemma MatchersRecoveredIff(ms: seq<Matcher>, ops: seq<string>)
    requires |ms| == |ops| + 1 && Operators(ops)
    ensures Parse(Print(ms, ops)).Some? && Parse(Print(ms, ops)).value.matchers == ms <==>
              forall i :: 0 <= i < |ms| ==> WellFormed(ms[i])
  {
    var e := Parse(Print(ms, ops));
    if e.Some? && e.value.matchers == ms {
      ParsedIsWellFormed(Print(ms, ops));
    } else if forall i :: 0 <= i < |ms| ==> WellFormed(ms[i]) {
      ParseOfPrinted(ms, ops);
    }
  }

  // ---- Evaluation ----

  type Holds = (string, seq<string>) -> bool

  predicate Signed(m: Matcher, holds: Holds) {
    holds(m.kind, m.values) != m.negated
  }

  function Results(ms: seq<Matcher>, holds: Holds): (rs: seq<bool>)
    ensures |rs| == |ms| && forall i :: 0 <= i < |ms| ==> rs[i] == Signed(ms[i], holds)
  {
    seq(|ms|, i requires 0 <= i < |ms| => Signed(ms[i], holds))
  }

  /** A disjunction, a conjunction, or without an operator the first matcher. */
  predicate Combine(operator: string, rs: seq<bool>) {
    if rs == [] then false
    else if operator == "||" then true in rs
    else if operator == "&&" then false !in rs
    else rs[0]
  }

  predicate Meaning(e: RuleExpression, holds: Holds) {
    Combine(e.operator, Results(e.matchers, holds))
  }

  function Negate(m: Matcher): Matcher {
    m.(negated := !m.negated)
  }

  function Swap(operator: string): string {
    if operator == "||" then "&&" else if operator == "&&" then "||" else operator
  }

  function Dual(e: RuleExpression): RuleExpression {
    RuleExpression(e.raw, seq(|e.matchers|, i requires 0 <= i < |e.matchers| => Negate(e.matchers[i])), Swap(e.operator))
  }

  /** Negating the matchers and swapping the operator complements the result, but
      for the expression without matchers, which is false either way. */
  lemma ComplementIff(e: RuleExpression, holds: Holds)
    ensures Meaning(Dual(e), holds) == !Meaning(e, holds) <==> e.matchers != []
  {
    var rs, rs' := Results(e.matchers, holds), Results(Dual(e).matchers, holds);
    assert forall i :: 0 <= i < |rs| ==> rs'[i] == !rs[i];
    assert true in rs' <==> false in rs by {
      assert true in rs' <==> exists i :: 0 <= i < |rs| && rs'[i];
      assert false in rs <==> exists i :: 0 <= i < |rs| && !rs[i];
    }
    assert false in rs' <==> true in rs by {
      assert false in rs' <==> exists i :: 0 <= i < |rs| && !rs'[i];
      assert true in rs <==> exists i :: 0 <= i < |rs| && rs[i];
    }
  }

  /** The usual reading of a mixed expression, "&&" binding tighter: acc is the
      conjunction that is still open. */
  predicate Precedence(acc: bool, ops: seq<string>, rs: seq<bool>)
    requires |ops| == |rs|
    decreases |ops|
  {
    if ops == [] then acc
    else if ops[0] == "&&" then Precedence(acc && rs[0], ops[1..], rs[1..])
    else acc || Precedence(rs[0], ops[1..], rs[1..])
  }

  /** One operator for the whole text means the same as the usual reading. */
  predicate ReadAsUsual(ops: seq<string>, rs: seq<bool>)
    requires |rs| == |ops| + 1
  {
    Combine(OperatorRead([], ops), rs) == Precedence(rs[0], ops, rs[1..])
  }

  lemma {:induction false} AllOr(acc: bool, ops: seq<string>, rs: seq<bool>)
    requires |ops| == |rs| && forall i :: 0 <= i < |ops| ==> ops[i] == "||"
    ensures Precedence(acc, ops, rs) <==> acc || true in rs
    decreases |ops|
  {
    if ops != [] {
      AllOr(rs[0], ops[1..], rs[1..]);
      assert rs == [rs[0]] + rs[1..];
    }
  }

  lemma {:induction false} AllAnd(acc: bool, ops: seq<string>, rs: seq<bool>)
    requires |ops| == |rs| && forall i :: 0 <= i < |ops| ==> ops[i] == "&&"
    ensures Precedence(acc, ops, rs) <==> acc && false !in rs
  {
    if ops != [] {
      AllAnd(acc && rs[0], ops[1..], rs[1..]);
      assert rs == [rs[0]] + rs[1..];
    }
  }

  /** A single true value (acc for k = -1, else rs[k]) followed by "&&" is lost. */
  lemma {:induction false} LoneIsLost(acc: bool, ops: seq<string>, rs: seq<bool>, k: int)
    requires |ops| == |rs| && k + 1 < |ops|
    requires acc ==> k == -1
    requires forall j :: 0 <= j < |rs| && rs[j] ==> j == k
    requires 0 <= k + 1 ==> ops[k + 1] == "&&"
    ensures !Precedence(acc, ops, rs)
    decreases |ops|
  {
    if ops != [] {
      if ops[0] == "&&" {
        LoneIsLost(acc && rs[0], ops[1..], rs[1..], if k == -1 then -2 else k - 1);
      } else {
        LoneIsLost(rs[0], ops[1..], rs[1..], k - 1);
      }
    }
  }

  predicate Uniform(ops: seq<string>) {
    !("&&" in ops && "||" in ops)
  }

  /** The single operator gives the usual reading of every expression exactly when
      the text does not mix operators. */
  lemma ReadAsUsualIff(ops: seq<string>)
    requires Operators(ops)
    ensures (forall rs: seq<bool> :: |rs| == |ops| + 1 ==> ReadAsUsual(ops, rs)) <==> Uniform(ops)
  {
    if Uniform(ops) {
      forall rs: seq<bool> | |rs| == |ops| + 1
        ensures ReadAsUsual(ops, rs)
      {
        UniformReadAsUsual(ops, rs);
      }
    } else {
      var i :| 0 <= i < |ops| && ops[i] == "&&";
      var rs := seq(|ops| + 1, j => j == i);
      assert rs[i] && true in rs;
      LoneIsLost(rs[0], ops, rs[1..], i - 1);
      assert !ReadAsUsual(ops, rs);
    }
  }

  lemma UniformReadAsUsual(ops: seq<string>, rs: seq<bool>)
    requires Operators(ops) && Uniform(ops) && |rs| == |ops| + 1
    ensures ReadAsUsual(ops, rs)
  {
    assert rs == [rs[0]] + rs[1..];
    assert forall i :: 0 <= i < |ops| ==> ops[i] in ops;
    if "||" in ops {
      AllOr(rs[0], ops, rs[1..]);
    } else {
      AllAnd(rs[0], ops, rs[1..]);
      assert ops != [] ==> ops[0] == "&&";
    }
  }

  /** Print, parse, evaluate: the text means what it says. */
  ghost predicate MeansUsual(ms: seq<Matcher>, ops: seq<string>, holds: Holds)
    requires |ms| == |ops| + 1
  {
    var e, rs := Parse(Print(ms, ops)), Results(ms, holds);
    e.Some? && (Meaning(e.value, holds) <==> Precedence(rs[0], ops, rs[1..]))
  }

  /** An unmixed expression does, unless it is a conjunction one of whose values
      hides a "||". */
  lemma PrintedMeansUsual(ms: seq<Matcher>, ops: seq<string>, holds: Holds)
    requires |ms| == |ops| + 1 && Operators(ops) && Uniform(ops) && forall i :: 0 <= i < |ms| ==> WellFormed(ms[i])
    requires "&&" in ops ==> !SomeMatcherDoubled(ms, '|')
    ensures MeansUsual(ms, ops, holds)
  {
    ParseOfPrinted(ms, ops);
    if ops != [] {
      assert ops[0] in ops;
      UniformReadAsUsual(ops, Results(ms, holds));
    }
  }

  predicate AllSame(ms: seq<Matcher>) {
    forall i, j :: 0 <= i < |ms| && 0 <= j < |ms| ==> ms[i] == ms[j]
  }

  /** And if it is one, exactly when its matchers are all the same. */
  lemma PrintedMeansUsualIff(ms: seq<Matcher>, ops: seq<string>)
    requires |ms| == |ops| + 1 && Operators(ops) && Uniform(ops) && forall i :: 0 <= i < |ms| ==> WellFormed(ms[i])
    ensures (forall holds :: MeansUsual(ms, ops, holds)) <==> ("&&" in ops && SomeMatcherDoubled(ms, '|') ==> AllSame(ms))
  {
    if "&&" in ops && SomeMatcherDoubled(ms, '|') {
      ParseOfPrinted(ms, ops);
      if AllSame(ms) {
        forall holds
          ensures MeansUsual(ms, ops, holds)
        {
          SameMeansUsual(ops, Results(ms, holds));
        }
      } else {
        var i, j :| 0 <= i < |ms| && 0 <= j < |ms| && ms[i] != ms[j];
        var holds := Telling(ms[i], ms[j]);
        var rs := Results(ms, holds);
        assert rs[i] && !rs[j];
        MixedDiffer(ops, rs, i, j);
        assert !MeansUsual(ms, ops, holds);
      }
    } else {
      forall holds
        ensures MeansUsual(ms, ops, holds)
      {
        PrintedMeansUsual(ms, ops, holds);
      }
    }
  }

  /** Circumstances under which one of two different matchers holds and the other
      does not. */
  function Telling(a: Matcher, b: Matcher): Holds {
    (kind, values) => if kind == a.kind && values == a.values then !a.negated else b.negated
  }

  lemma OnlyAnd(ops: seq<string>)
    requires Operators(ops) && Uniform(ops) && "&&" in ops
    ensures forall i :: 0 <= i < |ops| ==> ops[i] == "&&"
  {
    assert forall i :: 0 <= i < |ops| ==> ops[i] in ops;
  }

  lemma SameMeansUsual(ops: seq<string>, rs: seq<bool>)
    requires |rs| == |ops| + 1 && Operators(ops) && Uniform(ops) && "&&" in ops
    requires forall i :: 0 <= i < |rs| ==> rs[i] == rs[0]
    ensures Combine("||", rs) <==> Precedence(rs[0], ops, rs[1..])
  {
    OnlyAnd(ops);
    AllAnd(rs[0], ops, rs[1..]);
    assert rs[0] in rs;
  }

  lemma MixedDiffer(ops: seq<string>, rs: seq<bool>, i: nat, j: nat)
    requires |rs| == |ops| + 1 && Operators(ops) && Uniform(ops) && "&&" in ops
    requires i < |rs| && j < |rs| && rs[i] && !rs[j]
    ensures Combine("||", rs) && !Precedence(rs[0], ops, rs[1..])
  {
    OnlyAnd(ops);
    AllAnd(rs[0], ops, rs[1..]);
    assert rs[i] in rs;
    if j > 0 {
      assert rs[1..][j - 1] == rs[j];
    }
  }

  // ---- The two operations ----

  lemma {:induction false} CleanEnd(parts: seq<string>, part: string)
    ensures Clean(parts + [part]) == Clean(parts) + Kept(part)
  {
    if parts == [] {
      assert parts + [part] == [part];
    } else {
      assert (parts + [part])[1..] == parts[1..] + [part];
      CleanEnd(parts[1..], part);
    }
  }

  method ParseValues(args: string) returns (values: seq<string>)
    ensures values == ValuesOf(args)
  {
    values := [];
    if args != "" {
      var parts := Split(Strip(args, '`'), ',');
      values := TrimAll(parts);
    }
  }

  method TrimAll(parts: seq<string>) returns (values: seq<string>)
    ensures values == Clean(parts)
  {
    values := [];
    for i := 0 to |parts|
      invariant values == Clean(parts[..i])
    {
      var v := Trim(parts[i]);
      CleanEnd(parts[..i], parts[i]);
      assert parts[..i + 1] == parts[..i] + [parts[i]];
      if v != "" {
        values := values + [v];
      }
    }
    assert parts[..|parts|] == parts;
  }

  method ParseRuleExpression(rule: string) returns (r: Option<RuleExpression>)
    ensures r == Parse(rule)
  {
    var operator := "";
    if Doubled(rule, '|') {
      operator := "||";
    } else if Doubled(rule, '&') {
      operator := "&&";
    }
    var found := FindAll(rule);
    if |found| == 0 {
      return None;
    }
    var matchers := [];
    for i := 0 to |found|
      invariant matchers == MatchersOf(found)[..i]
    {
      var values := ParseValues(found[i].args);
      matchers := matchers + [Matcher(found[i].kind, values, found[i].negated)];
    }
    assert matchers == MatchersOf(found);
    return Some(RuleExpression(rule, matchers, operator));
  }

  method Evaluate(e: RuleExpression, holds: Holds) returns (r: bool)
    ensures r <==> Meaning(e, holds)
  {
    if |e.matchers| == 0 {
      return false;
    }
    var results := new bool[|e.matchers|];
    for i := 0 to |e.matchers|
      invariant results[..i] == Results(e.matchers, holds)[..i]
    {
      var result := holds(e.matchers[i].kind, e.matchers[i].values);
      if e.matchers[i].negated {
        result := !result;
      }
      results[i] := result;
    }
    assert results[..] == results[..results.Length] == Results(e.matchers, holds);
    match e.operator
    case "||" =>
      for i := 0 to results.Length
        invariant true !in results[..i]
      {
        if results[i] {
          return true;
        }
      }
      return false;
    case "&&" =>
      for i := 0 to results.Length
        invariant false !in results[..i]
      {
        if !results[i] {
          return false;
        }
      }
      return true;
    case _ =>
      return results[0];
  }
}
