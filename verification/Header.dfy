/**
 The header line of a configuration file, "# nitella/<type>: v<version>" with an
 optional checksum of everything after it. The digest is a parameter.
 */
module Header {
  import opened ByteNumbers
  import opened Options
  import opened TextTools

  const MAX_INT := 0x8000_0000_0000_0000

  datatype Header = Header(kind: string, version: int, checksum: string)

  // ---- Numbers ----

  predicate IsDigit(c: char) {
    '0' <= c <= '9'
  }

  function DigitOf(d: nat): char
    requires d < 10
  {
    ('0' as int + d) as char
  }

  function Decimal(n: int): string
    decreases n < 0, if n < 0 then -n else n
  {
    if n < 0 then "-" + Decimal(-n)
    else if n < 10 then [DigitOf(n)]
    else Decimal(n / 10) + [DigitOf(n % 10)]
  }

  function ValueOf(digits: string): nat
    requires All(IsDigit, digits)
  {
    if digits == "" then 0
    else
      assert IsDigit(digits[|digits| - 1]);
      10 * ValueOf(digits[..|digits| - 1]) + (digits[|digits| - 1] as int - '0' as int)
  }

  lemma {:induction false} DecimalRoundTrip(n: nat)
    ensures Decimal(n) != "" && All(IsDigit, Decimal(n)) && ValueOf(Decimal(n)) == n
  {
    if n >= 10 {
      DecimalRoundTrip(n / 10);
      var s := Decimal(n / 10) + [DigitOf(n % 10)];
      assert s[..|s| - 1] == Decimal(n / 10);
    }
  }

  // ---- Reading ----

  /** The characters of \s. */
  predicate IsBlank(c: char) {
    var x := c as int;
    x == 0x09 || x == 0x0a || x == 0x0c || x == 0x0d || x == 0x20
  }

  function SkipBlank(s: string): string {
    s[RunLength(IsBlank, s)..]
  }

  function After(prefix: string, s: string): Option<string> {
    if prefix <= s then Some(s[|prefix|..]) else None
  }

  /** The longest run of such characters, if any, and what follows it. */
  function Run(p: char -> bool, s: string): Option<(string, string)> {
    var n := RunLength(p, s);
    if n == 0 then None else Some((s[..n], s[n..]))
  }

  function ReadKind(line: string): Option<(string, string)> {
    var a := After("#", line);
    if a.None? then None else
    var b := After("nitella/", SkipBlank(a.value));
    if b.None? then None else
    var kind := Run(IsWord, b.value);
    if kind.None? then None else
    var rest := After(":", kind.value.1);
    if rest.None? then None else Some((kind.value.0, rest.value))
  }

  function ReadVersion(s: string): Option<(string, string)> {
    var a := After("v", SkipBlank(s));
    if a.None? then None else Run(IsDigit, a.value)
  }

  function ReadChecksum(s: string): Option<string> {
    if s == "" then Some("") else
    var a := After(";", s);
    if a.None? then None else
    var b := After("checksum=", SkipBlank(a.value));
    if b.None? || b.value == "" || '\n' in b.value then None else b
  }

  function ParseHeader(firstLine: string): Option<Header> {
    var kind := ReadKind(Trim(firstLine));
    if kind.None? then None else
    var version := ReadVersion(kind.value.1);
    if version.None? then None else
    var checksum := ReadChecksum(version.value.1);
    if checksum.None? then None else
    RunIsMaximal(IsDigit, After("v", SkipBlank(kind.value.1)).value);
    var n := ValueOf(version.value.0);
    if n >= MAX_INT then None else Some(Header(kind.value.0, n, checksum.value))
  }

  // ---- Writing ----

  function Suffix(checksum: string): string {
    if checksum == "" then "" else "; checksum=" + checksum
  }

  function Show(h: Header): string {
    "# nitella/" + (h.kind + (": v" + (Decimal(h.version) + Suffix(h.checksum))))
  }

  predicate GoodKind(kind: string) {
    kind != "" && All(IsWord, kind)
  }

  predicate GoodVersion(version: int) {
    0 <= version < MAX_INT
  }

  predicate GoodChecksum(checksum: string) {
    checksum == "" || ('\n' !in checksum && !IsSpace(checksum[|checksum| - 1]))
  }

  predicate Good(h: Header) {
    GoodKind(h.kind) && GoodVersion(h.version) && GoodChecksum(h.checksum)
  }

  lemma RunIs(p: char -> bool, run: string, rest: string)
    requires run != "" && All(p, run) && (rest == "" || !p(rest[0]))
    ensures Run(p, run + rest) == Some((run, rest))
  {
    RunLengthIs(p, run, rest);
    assert (run + rest)[..|run|] == run && (run + rest)[|run|..] == rest;
  }

  lemma AfterIs(prefix: string, rest: string)
    ensures After(prefix, prefix + rest) == Some(rest)
  {
    assert (prefix + rest)[|prefix|..] == rest;
  }

  lemma SkipOneBlank(rest: string)
    requires rest != "" && !IsBlank(rest[0])
    ensures SkipBlank(" " + rest) == rest
  {
    RunLengthIs(IsBlank, " ", rest);
    assert (" " + rest)[1..] == rest;
  }

  lemma KindOfShown(kind: string, rest: string)
    requires GoodKind(kind)
    ensures ReadKind("# nitella/" + (kind + (":" + rest))) == Some((kind, rest))
  {
    var named := "nitella/" + (kind + (":" + rest));
    assert "# nitella/" + (kind + (":" + rest)) == "#" + (" " + named);
    AfterIs("#", " " + named);
    SkipOneBlank(named);
    AfterIs("nitella/", kind + (":" + rest));
    RunIs(IsWord, kind, ":" + rest);
    AfterIs(":", rest);
  }

  lemma VersionOfShown(digits: string, rest: string)
    requires digits != "" && All(IsDigit, digits) && (rest == "" || !IsDigit(rest[0]))
    ensures ReadVersion(" v" + (digits + rest)) == Some((digits, rest))
  {
    var tail := "v" + (digits + rest);
    assert " v" + (digits + rest) == " " + tail;
    SkipOneBlank(tail);
    AfterIs("v", digits + rest);
    RunIs(IsDigit, digits, rest);
  }

  lemma ChecksumOfShown(checksum: string)
    requires '\n' !in checksum
    ensures ReadChecksum(Suffix(checksum)) == Some(checksum)
  {
    if checksum != "" {
      var named := "checksum=" + checksum;
      assert Suffix(checksum) == ";" + (" " + named);
      AfterIs(";", " " + named);
      SkipOneBlank(named);
      AfterIs("checksum=", checksum);
    }
  }

  lemma ShownIsTrimmed(h: Header)
    requires Good(h)
    ensures Trim(Show(h)) == Show(h)
  {
    DecimalRoundTrip(h.version);
    var digits, s := Decimal(h.version), Show(h);
    assert s[0] == '#';
    assert !IsSpace(s[|s| - 1]) by {
      if h.checksum == "" {
        assert s[|s| - 1] == digits[|digits| - 1];
        assert IsDigit(digits[|digits| - 1]);
      } else {
        assert s[|s| - 1] == h.checksum[|h.checksum| - 1];
      }
    }
    TrimOfTrimmed("", s);
    assert "" + s == s;
  }

  lemma ParseOfShown(h: Header)
    requires Good(h)
    ensures ParseHeader(Show(h)) == Some(h)
  {
    var digits, suffix := Decimal(h.version), Suffix(h.checksum);
    ShownIsTrimmed(h);
    DecimalRoundTrip(h.version);
    assert ": v" + (digits + suffix) == ":" + (" v" + (digits + suffix));
    KindOfShown(h.kind, " v" + (digits + suffix));
    VersionOfShown(digits, suffix);
    ChecksumOfShown(h.checksum);
  }

  // ---- Only good headers are read ----

  /** A text that is left over ends as the whole does. */
  predicate SameEnd(s: string, rest: string) {
    rest == "" || (s != "" && s[|s| - 1] == rest[|rest| - 1])
  }

  lemma {:induction false} TrimmedEnd(s: string)
    ensures var t := TrimRight(s); t == "" || !IsSpace(t[|t| - 1])
  {
    if s != "" && IsSpace(s[|s| - 1]) {
      TrimmedEnd(s[..|s| - 1]);
    }
  }

  lemma AfterEnd(prefix: string, s: string)
    requires After(prefix, s).Some?
    ensures SameEnd(s, After(prefix, s).value)
  {
  }

  lemma BlankEnd(s: string)
    ensures SameEnd(s, SkipBlank(s))
  {
  }

  lemma KindReadIsGood(line: string)
    requires ReadKind(line).Some?
    ensures GoodKind(ReadKind(line).value.0) && SameEnd(line, ReadKind(line).value.1)
  {
    var a := After("#", line).value;
    var b := After("nitella/", SkipBlank(a)).value;
    RunIsMaximal(IsWord, b);
    BlankEnd(a);
  }

  lemma VersionReadEnd(s: string)
    requires ReadVersion(s).Some?
    ensures SameEnd(s, ReadVersion(s).value.1)
  {
    BlankEnd(s);
  }

  lemma ChecksumReadIsGood(s: string)
    requires ReadChecksum(s).Some? && (s == "" || !IsSpace(s[|s| - 1]))
    ensures GoodChecksum(ReadChecksum(s).value)
  {
    if s != "" {
      var a := After(";", s).value;
      AfterEnd(";", s);
      BlankEnd(a);
      AfterEnd("checksum=", SkipBlank(a));
    }
  }

  lemma ParsedIsGood(line: string)
    requires ParseHeader(line).Some?
    ensures Good(ParseHeader(line).value)
  {
    var s := Trim(line);
    TrimmedEnd(TrimLeft(line));
    KindReadIsGood(s);
    VersionReadEnd(ReadKind(s).value.1);
    ChecksumReadIsGood(ReadVersion(ReadKind(s).value.1).value.1);
  }

  /** A header survives printing and parsing exactly when its type is a word, its
      version a non-negative int, and its checksum has no newline and no trailing
      space; and every header that is read is of this kind. */
  lemma HeaderRoundTripIff(h: Header)
    ensures ParseHeader(Show(h)) == Some(h) <==> Good(h)
  {
    if Good(h) {
      ParseOfShown(h);
    }
    if ParseHeader(Show(h)) == Some(h) {
      ParsedIsGood(Show(h));
    }
  }

  // ---- The lines that are read, by their form ----

  /** The form of a header line: "#", "nitella/", a word, ":", "v", digits, and perhaps ";" and
      "checksum=" with a text; blanks may follow "#", ":" and ";". */
  ghost predicate HasForm(line: string, h: Header, a: string, b: string, c: string, digits: string) {
    && All(IsBlank, a) && All(IsBlank, b) && All(IsBlank, c)
    && h.kind != "" && All(IsWord, h.kind) && '\n' !in h.checksum
    && digits != "" && All(IsDigit, digits) && ValueOf(digits) == h.version < 0x8000_0000_0000_0000
    && line == "#" + (a + ("nitella/" + (h.kind + (":" + (b + ("v" + (digits + Tail(c, h.checksum))))))))
  }

  ghost function Tail(c: string, checksum: string): string {
    if checksum == "" then "" else ";" + (c + ("checksum=" + checksum))
  }

  lemma SkipBlankIs(blanks: string, rest: string)
    requires All(IsBlank, blanks) && (rest == "" || !IsBlank(rest[0]))
    ensures SkipBlank(blanks + rest) == rest
  {
    RunLengthIs(IsBlank, blanks, rest);
    assert (blanks + rest)[|blanks|..] == rest;
  }

  lemma BlankPart(s: string) returns (blanks: string)
    ensures All(IsBlank, blanks) && s == blanks + SkipBlank(s)
  {
    RunIsMaximal(IsBlank, s);
    blanks := s[..RunLength(IsBlank, s)];
  }

  lemma AfterPart(prefix: string, s: string)
    requires After(prefix, s).Some?
    ensures s == prefix + After(prefix, s).value
  {
  }

  lemma RunPart(p: char -> bool, s: string)
    requires Run(p, s).Some?
    ensures var (run, rest) := Run(p, s).value; run != "" && All(p, run) && s == run + rest
  {
    RunIsMaximal(p, s);
  }

  lemma KindHasForm(line: string) returns (a: string)
    requires ReadKind(line).Some?
    ensures var (kind, rest) := ReadKind(line).value;
            All(IsBlank, a) && GoodKind(kind) && line == "#" + (a + ("nitella/" + (kind + (":" + rest))))
  {
    var s := After("#", line).value;
    var t := After("nitella/", SkipBlank(s)).value;
    var u := Run(IsWord, t).value.1;
    a := BlankPart(s);
    AfterPart("#", line);
    AfterPart("nitella/", SkipBlank(s));
    RunPart(IsWord, t);
    AfterPart(":", u);
  }

  lemma KindOfForm(a: string, kind: string, rest: string)
    requires All(IsBlank, a) && GoodKind(kind)
    ensures ReadKind("#" + (a + ("nitella/" + (kind + (":" + rest))))) == Some((kind, rest))
  {
    var named := "nitella/" + (kind + (":" + rest));
    AfterIs("#", a + named);
    SkipBlankIs(a, named);
    AfterIs("nitella/", kind + (":" + rest));
    RunIs(IsWord, kind, ":" + rest);
    AfterIs(":", rest);
  }

  lemma VersionHasForm(s: string) returns (b: string)
    requires ReadVersion(s).Some?
    ensures var (digits, rest) := ReadVersion(s).value;
            All(IsBlank, b) && digits != "" && All(IsDigit, digits) && s == b + ("v" + (digits + rest))
  {
    b := BlankPart(s);
    AfterPart("v", SkipBlank(s));
    RunPart(IsDigit, After("v", SkipBlank(s)).value);
  }

  lemma VersionOfForm(b: string, digits: string, rest: string)
    requires All(IsBlank, b) && digits != "" && All(IsDigit, digits) && (rest == "" || !IsDigit(rest[0]))
    ensures ReadVersion(b + ("v" + (digits + rest))) == Some((digits, rest))
  {
    SkipBlankIs(b, "v" + (digits + rest));
    AfterIs("v", digits + rest);
    RunIs(IsDigit, digits, rest);
  }

  lemma ChecksumHasForm(s: string) returns (c: string)
    requires ReadChecksum(s).Some?
    ensures All(IsBlank, c) && '\n' !in ReadChecksum(s).value && s == Tail(c, ReadChecksum(s).value)
  {
    c := "";
    if s != "" {
      var t := After(";", s).value;
      c := BlankPart(t);
      assert SkipBlank(t) == "checksum=" + ReadChecksum(s).value && s == ";" + t;
    }
  }

  lemma ChecksumOfForm(c: string, checksum: string)
    requires All(IsBlank, c) && '\n' !in checksum
    ensures ReadChecksum(Tail(c, checksum)) == Some(checksum)
  {
    if checksum != "" {
      AfterIs(";", c + ("checksum=" + checksum));
      SkipBlankIs(c, "checksum=" + checksum);
      AfterIs("checksum=", checksum);
    }
  }

  lemma ParsedHasForm(line: string) returns (a: string, b: string, c: string, digits: string)
    requires ParseHeader(line).Some?
    ensures HasForm(Trim(line), ParseHeader(line).value, a, b, c, digits)
  {
    var (kind, rest) := ReadKind(Trim(line)).value;
    a := KindHasForm(Trim(line));
    b := VersionHasForm(rest);
    digits := ReadVersion(rest).value.0;
    c := ChecksumHasForm(ReadVersion(rest).value.1);
  }

  lemma FormIsParsed(line: string, h: Header, a: string, b: string, c: string, digits: string)
    requires HasForm(Trim(line), h, a, b, c, digits)
    ensures ParseHeader(line) == Some(h)
  {
    var tail := Tail(c, h.checksum);
    KindOfForm(a, h.kind, b + ("v" + (digits + tail)));
    VersionOfForm(b, digits, tail);
    ChecksumOfForm(c, h.checksum);
  }

  /** A line is read as a header exactly when, trimmed, it has this form. */
  lemma ParsesIff(line: string, h: Header)
    ensures ParseHeader(line) == Some(h) <==> exists a, b, c, digits :: HasForm(Trim(line), h, a, b, c, digits)
  {
    if ParseHeader(line) == Some(h) {
      var a, b, c, digits := ParsedHasForm(line);
    }
    if a, b, c, digits :| HasForm(Trim(line), h, a, b, c, digits) {
      FormIsParsed(line, h, a, b, c, digits);
    }
  }

  /** The text of a header. */
  lemma HeaderText()
    ensures Show(Header("proxy", 10, "sha256:00")) == "# nitella/proxy: v10; checksum=sha256:00"
  {
    assert Decimal(10) == Decimal(1) + [DigitOf(0)] == "10";
  }

  // ---- Files ----

  type Digest = string -> seq<byte>

  function HexDigit(d: nat): char
    requires d < 16
  {
    (if d < 10 then '0' as int + d else 'a' as int + d - 10) as char
  }

  function Hex(b: seq<byte>): string {
    if b == [] then "" else [HexDigit(b[0] / 16), HexDigit(b[0] % 16)] + Hex(b[1..])
  }

  /** What the checksum covers: all after the first newline, or the whole text if
      there is none. */
  function Hashed(content: string): string {
    var n := IndexOf(content, '\n');
    if n == |content| then content else content[n + 1..]
  }

  function Checksum(digest: Digest, content: string): string {
    "sha256:" + Hex(digest(Hashed(content)))
  }

  function FirstLine(content: string): string {
    content[..IndexOf(content, '\n')]
  }

  function ExtractContent(content: string): Option<(string, Header)> {
    var h, n := ParseHeader(FirstLine(content)), IndexOf(content, '\n');
    if h.None? then None
    else Some((if n == |content| then "" else content[n + 1..], h.value))
  }

  datatype Verdict = Accepted | BadHeader | Mismatch

  function VerifyChecksum(digest: Digest, content: string): Verdict {
    var h := ParseHeader(FirstLine(content));
    if h.None? then BadHeader
    else if h.value.checksum == "" || h.value.checksum == Checksum(digest, content) then Accepted
    else Mismatch
  }

  method GenerateChecksum(digest: Digest, content: string) returns (checksum: string)
    ensures checksum == Checksum(digest, content)
  {
    var idx := 0;
    for i := 0 to |content|
      invariant idx == 0 && '\n' !in content[..i]
    {
      if content[i] == '\n' {
        idx := i + 1;
        assert content == content[..i] + content[i..];
        IndexOfIs(content[..i], '\n', content[i..]);
        break;
      }
    }
    if idx == 0 {
      assert content[..|content|] == content;
      IndexOfIs(content, '\n', "");
      assert content + "" == content;
    }
    var hashContent := if idx < |content| then content[idx..] else "";
    assert content[0..] == content && content[|content|..] == "";
    assert hashContent == Hashed(content);
    return "sha256:" + Hex(digest(hashContent));
  }

  /** The text of a file: the header line, a newline, and the body. */
  function FileOf(h: Header, body: string): string {
    Show(h) + ("\n" + body)
  }

  lemma LinesOfFile(line: string, body: string)
    requires '\n' !in line
    ensures var content := line + ("\n" + body);
            IndexOf(content, '\n') == |line| && FirstLine(content) == line && Hashed(content) == body
  {
    IndexOfIs(line, '\n', "\n" + body);
    Cut(line, '\n', body);
  }

  lemma {:induction false} DecimalHasNoNewline(n: int)
    ensures '\n' !in Decimal(n)
    decreases n < 0, if n < 0 then -n else n
  {
    if n < 0 {
      DecimalHasNoNewline(-n);
    } else if n >= 10 {
      DecimalHasNoNewline(n / 10);
    }
  }

  lemma {:induction false} HexIsPlain(b: seq<byte>)
    ensures All(IsWord, Hex(b))
  {
    if b != [] {
      HexIsPlain(b[1..]);
    }
  }

  /** Two digits a byte, the high one first, in lower case. */
  lemma {:induction false} HexAt(b: seq<byte>, i: nat)
    requires i < |b|
    ensures |Hex(b)| == 2 * |b|
    ensures Hex(b)[2 * i] == "0123456789abcdef"[b[i] / 16] && Hex(b)[2 * i + 1] == "0123456789abcdef"[b[i] % 16]
  {
    HexLength(b);
    HexParts(b);
    DigitText(b[0] / 16);
    DigitText(b[0] % 16);
    if i > 0 {
      HexAt(b[1..], i - 1);
      assert Hex(b)[2 * i] == Hex(b)[2..][2 * (i - 1)] && Hex(b)[2 * i + 1] == Hex(b)[2..][2 * (i - 1) + 1];
    }
  }

  lemma DigitText(d: nat)
    requires d < 16
    ensures HexDigit(d) == "0123456789abcdef"[d]
  {
  }

  lemma {:induction false} HexLength(b: seq<byte>)
    ensures |Hex(b)| == 2 * |b|
  {
    if b != [] {
      HexLength(b[1..]);
    }
  }

  lemma HexParts(b: seq<byte>)
    requires b != []
    ensures |Hex(b)| >= 2 && Hex(b)[0] == HexDigit(b[0] / 16) && Hex(b)[1] == HexDigit(b[0] % 16)
    ensures Hex(b)[2..] == Hex(b[1..])
  {
  }

  lemma {:induction false} HexIsInjective(a: seq<byte>, b: seq<byte>)
    requires Hex(a) == Hex(b)
    ensures a == b
  {
    HexLength(a);
    HexLength(b);
    if a != [] {
      HexParts(a);
      HexParts(b);
      HexIsInjective(a[1..], b[1..]);
      assert a == [a[0]] + a[1..] && b == [b[0]] + b[1..];
    }
  }

  lemma ShownHasNoNewline(h: Header)
    requires '\n' !in h.kind && '\n' !in h.checksum
    ensures '\n' !in Show(h)
  {
    DecimalHasNoNewline(h.version);
  }

  /** The bytes written: the checksum is taken of the file without one. */
  function Written(digest: Digest, kind: string, version: int, body: string, includeChecksum: bool): string {
    var bare := Header(kind, version, "");
    FileOf(if includeChecksum then bare.(checksum := Checksum(digest, FileOf(bare, body))) else bare, body)
  }

  method WriteWithHeader(digest: Digest, kind: string, version: int, body: string, includeChecksum: bool)
    returns (fullContent: string)
    ensures fullContent == Written(digest, kind, version, body, includeChecksum)
  {
    var header := Header(kind, version, "");
    var headerLine := Show(header) + "\n";
    fullContent := headerLine + body;
    assert fullContent == FileOf(header, body);
    if includeChecksum {
      var checksum := GenerateChecksum(digest, fullContent);
      header := header.(checksum := checksum);
      headerLine := Show(header) + "\n";
      fullContent := headerLine + body;
      assert fullContent == FileOf(header, body);
    }
  }

  function BodyChecksum(digest: Digest, body: string): string {
    "sha256:" + Hex(digest(body))
  }

  lemma BodyChecksumIsGood(digest: Digest, body: string)
    ensures GoodChecksum(BodyChecksum(digest, body)) && '\n' !in BodyChecksum(digest, body)
  {
    var hex := Hex(digest(body));
    HexIsPlain(digest(body));
    assert forall c :: c in hex ==> IsWord(c);
    if hex != "" {
      assert IsWord(hex[|hex| - 1]);
    }
  }

  lemma ReadsOfFile(digest: Digest, h: Header, body: string)
    requires Good(h)
    ensures ExtractContent(FileOf(h, body)) == Some((body, h))
    ensures Checksum(digest, FileOf(h, body)) == BodyChecksum(digest, body)
    ensures VerifyChecksum(digest, FileOf(h, body))
            == if h.checksum == "" || h.checksum == BodyChecksum(digest, body) then Accepted else Mismatch
  {
    var content := FileOf(h, body);
    LinesOfShown(h, body);
    assert ParseHeader(FirstLine(content)) == Some(h) by {
      ParseOfShown(h);
    }
    assert content[|Show(h)| + 1..] == body by {
      Cut(Show(h), '\n', body);
    }
  }

  lemma LinesOfShown(h: Header, body: string)
    requires Good(h)
    ensures var content := FileOf(h, body);
            IndexOf(content, '\n') == |Show(h)| && FirstLine(content) == Show(h) && Hashed(content) == body
  {
    assert forall c :: c in h.kind ==> IsWord(c);
    ShownHasNoNewline(h);
    LinesOfFile(Show(h), body);
  }

  /** What is written is read back, type, version and body, exactly when the type
      is a word and the version a non-negative int. */
  lemma WriteRoundTripIff(digest: Digest, kind: string, version: int, body: string, includeChecksum: bool)
    ensures var r := ExtractContent(Written(digest, kind, version, body, includeChecksum));
            (r.Some? && r.value.0 == body && r.value.1.kind == kind && r.value.1.version == version)
            <==> GoodKind(kind) && GoodVersion(version)
  {
    var content := Written(digest, kind, version, body, includeChecksum);
    if ExtractContent(content).Some? {
      ParsedIsGood(FirstLine(content));
    }
    if GoodKind(kind) && GoodVersion(version) {
      WrittenHeader(digest, kind, version, body, includeChecksum);
    }
  }

  /** The checksum does not depend on the header line it is put into, so that what
      is written verifies, with or without it. */
  lemma WrittenHeader(digest: Digest, kind: string, version: int, body: string, includeChecksum: bool)
    requires GoodKind(kind) && GoodVersion(version)
    ensures var content := Written(digest, kind, version, body, includeChecksum);
            var checksum := if includeChecksum then BodyChecksum(digest, body) else "";
            && ExtractContent(content) == Some((body, Header(kind, version, checksum)))
            && VerifyChecksum(digest, content) == Accepted
  {
    var bare := Header(kind, version, "");
    ReadsOfFile(digest, bare, body);
    BodyChecksumIsGood(digest, body);
    ReadsOfFile(digest, bare.(checksum := BodyChecksum(digest, body)), body);
  }

  /** A file whose body was replaced under its checksummed header verifies exactly
      when the two bodies have one digest. */
  lemma ReplacedBodyIff(digest: Digest, kind: string, version: int, body: string, body': string)
    requires GoodKind(kind) && GoodVersion(version)
    ensures var h := Header(kind, version, BodyChecksum(digest, body));
            VerifyChecksum(digest, FileOf(h, body')) == Accepted <==> digest(body') == digest(body)
  {
    var h := Header(kind, version, BodyChecksum(digest, body));
    BodyChecksumIsGood(digest, body);
    ReadsOfFile(digest, h, body');
    if h.checksum == BodyChecksum(digest, body') {
      var x, y := BodyChecksum(digest, body), BodyChecksum(digest, body');
      assert x[7..] == Hex(digest(body)) && y[7..] == Hex(digest(body'));
      HexIsInjective(digest(body), digest(body'));
    }
  }
}
