/**
 * The text handling of the scan loaders: the four line classifiers, the
 * header split at the first '=', Ruby's whitespace `split`, `join`, `chomp`
 * and the two scan-number patterns. Lines are the strings `IO#each` yields:
 * a line holds no line feed except, possibly, one at its end.
 */
module Text {
  import opened Base

  predicate IsDigit(c: char) { '0' <= c <= '9' }

  /** Ruby's `\s`: space, tab, line feed, carriage return, form feed, vertical tab. */
  predicate IsSpace(c: char) {
    c == ' ' || c == '\t' || c == '\n' || c == '\r' || c == '\U{C}' || c == '\U{B}'
  }

  /** Ruby's `\w`: ASCII letters, digits and the underscore. */
  predicate IsWordChar(c: char) {
    'a' <= c <= 'z' || 'A' <= c <= 'Z' || IsDigit(c) || c == '_'
  }

  predicate IsLineBreak(c: char) { c == '\n' || c == '\r' }

  predicate AllDigits(s: string) { forall k | 0 <= k < |s| :: IsDigit(s[k]) }

  predicate OccursAt(s: string, pat: string, i: nat) {
    i + |pat| <= |s| && s[i..i + |pat|] == pat
  }

  predicate Contains(s: string, pat: string) {
    exists i | 0 <= i <= |s| :: OccursAt(s, pat, i)
  }

  // ---------------------------------------------------------------------
  // The four line classes of the loaders

  /** `line =~ %r{BEGIN IONS}` */
  predicate IsBeginLine(line: string) { Contains(line, "BEGIN IONS") }

  /** `line =~ %r{END IONS}` */
  predicate IsEndLine(line: string) { Contains(line, "END IONS") }

  predicate WordThenEquals(line: string, i: nat) {
    i + 1 < |line| && IsWordChar(line[i]) && line[i + 1] == '='
  }

  /** `line =~ %r{\w+=}`: some word character is directly followed by '='. */
  predicate IsHeaderLine(line: string) { exists i | 0 <= i < |line| :: WordThenEquals(line, i) }

  /** A member of the character class `[\s|\d|\.]` (the `|` is literal there). */
  predicate IsPeakChar(c: char) { IsSpace(c) || IsDigit(c) || c == '|' || c == '.' }

  /**
   * `line =~ %r{^\d[\s|\d|\.]+$}` on a line: a digit, then at least one
   * more character, all of them from the peak class (a trailing line feed
   * is itself a member of `\s`).
   */
  predicate IsPeakLine(line: string) {
    |line| >= 2 && IsDigit(line[0]) && forall k | 1 <= k < |line| :: IsPeakChar(line[k])
  }

  // ---------------------------------------------------------------------
  // chomp, split('='), join

  /** Ruby's `String#chomp`: drops one trailing "\r\n", "\n" or "\r". */
  function Chomp(s: string): (r: string)
    ensures r <= s && |s| - 2 <= |r|
    ensures s[|r|..] in {"", "\n", "\r", "\r\n"}
    ensures (r == s) <==> (s == [] || !IsLineBreak(s[|s| - 1]))
    ensures |s| >= 2 && s[|s| - 2..] == "\r\n" ==> r == s[..|s| - 2]
  {
    if |s| >= 2 && s[|s| - 2] == '\r' && s[|s| - 1] == '\n' then
      assert s[|s| - 2..] == "\r\n";
      s[..|s| - 2]
    else if |s| >= 1 && IsLineBreak(s[|s| - 1]) then
      assert s[|s| - 1..] == [s[|s| - 1]];
      s[..|s| - 1]
    else
      assert s[|s|..] == "";
      s
  }

  /** Position of the first occurrence of `c`. */
  function IndexOf(s: string, c: char): (i: nat)
    requires c in s
    ensures i < |s| && s[i] == c && c !in s[..i]
  {
    if s[0] == c then 0 else 1 + IndexOf(s[1..], c)
  }

  /** `s` without its trailing run of `c` characters. */
  function DropTrailing(s: string, c: char): (r: string)
    ensures r <= s && (r == [] || r[|r| - 1] != c)
    ensures forall k | |r| <= k < |s| :: s[k] == c
  {
    if s != [] && s[|s| - 1] == c then DropTrailing(s[..|s| - 1], c) else s
  }

  /**
   * `val = line.split('='); key = val.shift; value = val.join('=').chomp.chomp`.
   * The key is the text before the first '='. `split` drops trailing empty
   * fields, so the re-joined rest loses any trailing '=' characters; then
   * two `chomp`s strip the line terminator.
   */
  function SplitHeader(line: string): (kv: (string, string))
    requires '=' in line
    ensures '=' !in kv.0
  {
    var i := IndexOf(line, '=');
    (line[..i], Chomp(Chomp(DropTrailing(line[i + 1..], '='))))
  }

  lemma HeaderLineHasEquals(line: string)
    requires IsHeaderLine(line)
    ensures '=' in line
  {
    var i :| 0 <= i < |line| && WordThenEquals(line, i);
    assert line[i + 1] == '=';
  }

  lemma ChompAfterEquals(a: string, b: string)
    requires a != [] && a[|a| - 1] == '='
    ensures Chomp(a + b) == a + Chomp(b)
  {
    if |b| >= 2 {
      assert (a + b)[|a + b| - 2..] == b[|b| - 2..];
    } else if |b| == 1 {
      assert (a + b)[|a + b| - 2] == '=';
      assert (a + b)[..|a + b| - 1] == a;
    } else {
      assert a + b == a;
    }
  }

  /**
   * A header line that does not end in '=' is rebuilt from its parts:
   * `key + "=" + value` is the chomped line, and the key holds no '='.
   */
  lemma HeaderRebuildsLine(line: string)
    requires '=' in line && line[|line| - 1] != '='
    ensures SplitHeader(line).0 + "=" + SplitHeader(line).1 == Chomp(Chomp(line))
  {
    var i := IndexOf(line, '=');
    var key, rest := line[..i], line[i + 1..];
    assert line == (key + "=") + rest;
    assert rest != [] && rest[|rest| - 1] != '=';
    assert DropTrailing(rest, '=') == rest;
    ChompAfterEquals(key + "=", rest);
    ChompAfterEquals(key + "=", Chomp(rest));
  }

  lemma {:induction false} IndexOfAfter(a: string, c: char, b: string)
    requires c !in a
    ensures c in a + [c] + b && IndexOf(a + [c] + b, c) == |a|
  {
    if a != [] {
      assert (a + [c] + b)[1..] == a[1..] + [c] + b;
      IndexOfAfter(a[1..], c, b);
    }
  }

  /** Writing `key=value` plus a line feed and splitting it again gives back the pair. */
  lemma HeaderRoundTrip(key: string, value: string)
    requires '=' !in key
    requires forall k | 0 <= k < |value| :: !IsLineBreak(value[k])
    ensures '=' in key + "=" + value + "\n"
    ensures SplitHeader(key + "=" + value + "\n") == (key, value)
  {
    var line := key + "=" + value + "\n";
    assert line == key + ['='] + (value + "\n");
    IndexOfAfter(key, '=', value + "\n");
    assert line[..|key|] == key;
    assert line[|key| + 1..] == value + "\n";
    assert DropTrailing(value + "\n", '=') == value + "\n";
    assert Chomp(value + "\n") == value;
  }

  /** Dropping a run of `c`s from a string that does not end in `c` gives that string. */
  lemma {:induction false} DropTrailingRun(v: string, c: char, k: nat)
    requires v == [] || v[|v| - 1] != c
    ensures DropTrailing(v + seq(k, _ => c), c) == v
    decreases k
  {
    var s := v + seq(k, _ => c);
    if k == 0 {
      assert s == v;
    } else {
      assert s[|s| - 1] == c;
      assert s[..|s| - 1] == v + seq(k - 1, _ => c);
      DropTrailingRun(v, c, k - 1);
    }
  }

  /**
   * On a final line without a line feed, `split('=')` drops the empty
   * trailing fields, so the value loses every '=' it ends with.
   */
  lemma HeaderTrailingEqualsDropped(key: string, v: string, k: nat)
    requires '=' !in key && (v == [] || v[|v| - 1] != '=')
    requires forall j | 0 <= j < |v| :: !IsLineBreak(v[j])
    ensures '=' in key + "=" + v + seq(k, _ => '=')
    ensures SplitHeader(key + "=" + v + seq(k, _ => '=')) == (key, v)
  {
    var tail := v + seq(k, _ => '=');
    var line := key + "=" + v + seq(k, _ => '=');
    assert line == key + ['='] + tail;
    IndexOfAfter(key, '=', tail);
    assert line[..|key|] == key;
    assert line[|key| + 1..] == tail;
    DropTrailingRun(v, '=', k);
  }

  /** Ruby's `Array#join(sep)` on strings. */
  function Join(ws: seq<string>, sep: string): (s: string)
    ensures ws == [] ==> s == []
    ensures |ws| == 1 ==> s == ws[0]
  {
    if ws == [] then "" else if |ws| == 1 then ws[0] else ws[0] + sep + Join(ws[1..], sep)
  }

  // ---------------------------------------------------------------------
  // Whitespace split

  /** Length of the leading run of non-space characters. */
  function TokenLen(s: string): (n: nat)
    ensures n <= |s| && (forall k | 0 <= k < n :: !IsSpace(s[k]))
    ensures n < |s| ==> IsSpace(s[n])
  {
    if s == [] || IsSpace(s[0]) then 0 else 1 + TokenLen(s[1..])
  }

  predicate IsWord(w: string) { w != [] && forall k | 0 <= k < |w| :: !IsSpace(w[k]) }

  /** Ruby's `String#split` with no argument: the maximal runs of non-space characters. */
  function Words(s: string): (ws: seq<string>)
    ensures forall k | 0 <= k < |ws| :: IsWord(ws[k])
    decreases |s|
  {
    if s == [] then []
    else if IsSpace(s[0]) then Words(s[1..])
    else
      var n := TokenLen(s);
      [s[..n]] + Words(s[n..])
  }

  /** A peak line starts with a digit, so `split` finds at least one field in it. */
  lemma PeakLineWords(line: string)
    requires IsPeakLine(line)
    ensures Words(line) != []
  {
    assert !IsSpace(line[0]);
  }

  lemma {:induction false} WordsOfWordThen(w: string, t: string)
    requires IsWord(w)
    requires t == [] || IsSpace(t[0])
    ensures Words(w + t) == [w] + Words(t)
    decreases |w|
  {
    TokenLenOfWordThen(w, t);
    assert (w + t)[..|w|] == w;
    assert (w + t)[|w|..] == t;
  }

  lemma {:induction false} TokenLenOfWordThen(w: string, t: string)
    requires forall k | 0 <= k < |w| :: !IsSpace(w[k])
    requires t == [] || IsSpace(t[0])
    ensures TokenLen(w + t) == |w|
    decreases |w|
  {
    if w == [] {
      assert w + t == t;
    } else {
      assert (w + t)[1..] == w[1..] + t;
      TokenLenOfWordThen(w[1..], t);
    }
  }

  lemma {:induction false} WordsOfSpaces(t: string)
    requires forall k | 0 <= k < |t| :: IsSpace(t[k])
    ensures Words(t) == []
    decreases |t|
  {
    if t != [] {
      WordsOfSpaces(t[1..]);
    }
  }

  /** Leading white space does not change what `split` gives. */
  lemma {:induction false} WordsAfterSpaces(lead: string, t: string)
    requires forall k | 0 <= k < |lead| :: IsSpace(lead[k])
    ensures Words(lead + t) == Words(t)
    decreases |lead|
  {
    if lead == [] {
      assert lead + t == t;
    } else {
      assert (lead + t)[0] == lead[0];
      assert (lead + t)[1..] == lead[1..] + t;
      WordsAfterSpaces(lead[1..], t);
    }
  }

  /**
   * Joining words with single spaces and ending the line with white space,
   * as `to_s` writes a peak, is undone by `split`.
   */
  lemma {:induction false} WordsOfJoin(ws: seq<string>, tail: string)
    requires forall k | 0 <= k < |ws| :: IsWord(ws[k])
    requires forall k | 0 <= k < |tail| :: IsSpace(tail[k])
    ensures Words(Join(ws, " ") + tail) == ws
    decreases |ws|
  {
    if ws == [] {
      assert Join(ws, " ") + tail == tail;
      WordsOfSpaces(tail);
    } else if |ws| == 1 {
      WordsOfWordThen(ws[0], tail);
      WordsOfSpaces(tail);
    } else {
      var rest := Join(ws[1..], " ") + tail;
      assert Join(ws, " ") + tail == ws[0] + (" " + rest);
      WordsOfWordThen(ws[0], " " + rest);
      assert (" " + rest)[1..] == rest;
      WordsOfJoin(ws[1..], tail);
    }
  }

  // ---------------------------------------------------------------------
  // Decimal numerals

  function DigitValue(c: char): nat
    requires IsDigit(c)
  {
    (c as int) - ('0' as int)
  }

  /** Ruby's `to_i` on a run of decimal digits. */
  function DigitsValue(s: string): nat
    requires AllDigits(s)
  {
    if s == [] then 0 else 10 * DigitsValue(s[..|s| - 1]) + DigitValue(s[|s| - 1])
  }

  function DigitChar(d: nat): (c: char)
    requires d < 10
    ensures IsDigit(c) && DigitValue(c) == d
  {
    ('0' as int + d) as char
  }

  /** The decimal numeral of `n`, without leading zeros. */
  function Decimal(n: nat): (s: string)
    ensures s != [] && AllDigits(s)
  {
    if n < 10 then [DigitChar(n)] else Decimal(n / 10) + [DigitChar(n % 10)]
  }

  lemma {:induction false} DecimalRoundTrip(n: nat)
    ensures DigitsValue(Decimal(n)) == n
  {
    if n >= 10 {
      DecimalRoundTrip(n / 10);
      var s := Decimal(n);
      assert s[..|s| - 1] == Decimal(n / 10);
    }
  }

  /** Length of the maximal run of digits starting at position `i`. */
  function DigitRun(s: string, i: nat): (n: nat)
    requires i <= |s|
    ensures i + n <= |s| && forall k | i <= k < i + n :: IsDigit(s[k])
    ensures i + n < |s| ==> !IsDigit(s[i + n])
    decreases |s| - i
  {
    if i < |s| && IsDigit(s[i]) then 1 + DigitRun(s, i + 1) else 0
  }

  lemma {:induction false} DigitRunOfNumeral(p: string, d: string, t: string)
    requires AllDigits(d)
    requires t == [] || !IsDigit(t[0])
    ensures DigitRun(p + d + t, |p|) == |d|
    decreases |d|
  {
    var s := p + d + t;
    if d == [] {
      assert s == p + t;
      if |p| < |s| {
        assert s[|p|] == t[0];
      }
    } else {
      assert s[|p|] == d[0];
      assert s == (p + d[..1]) + d[1..] + t;
      DigitRunOfNumeral(p + d[..1], d[1..], t);
    }
  }

  // ---------------------------------------------------------------------
  // The two scan-number patterns

  datatype Pattern =
    | TitleScan     // %r{Scan ([\d]+)}, used by Scan#scanNumber on the TITLE value
    | EtdTitleLine  // %r{TITLE=Scan\s([\d]+) }, used by the ETD loader on a whole line

  /** Where the captured digits begin, for a match starting at `i`. */
  function CaptureStart(p: Pattern, i: nat): nat {
    match p
    case TitleScan => i + 5
    case EtdTitleLine => i + 11
  }

  predicate MatchesAt(p: Pattern, s: string, i: nat) {
    match p
    case TitleScan =>
      OccursAt(s, "Scan ", i) && DigitRun(s, i + 5) > 0
    case EtdTitleLine =>
      OccursAt(s, "TITLE=Scan", i) && i + 10 < |s| && IsSpace(s[i + 10])
      && DigitRun(s, i + 11) > 0
      && i + 11 + DigitRun(s, i + 11) < |s| && s[i + 11 + DigitRun(s, i + 11)] == ' '
  }

  /** The leftmost position at or after `i` where the pattern matches. */
  function LeftmostFrom(p: Pattern, s: string, i: nat): (r: Option<nat>)
    requires i <= |s|
    ensures r.Some? ==> i <= r.value < |s| && MatchesAt(p, s, r.value)
    ensures r.Some? ==> forall k | i <= k < r.value :: !MatchesAt(p, s, k)
    ensures r.None? ==> forall k | i <= k <= |s| :: !MatchesAt(p, s, k)
    decreases |s| - i
  {
    if MatchesAt(p, s, i) then Some(i)
    else if i == |s| then None
    else LeftmostFrom(p, s, i + 1)
  }

  /** `Regexp.last_match(1).to_i` after matching: the digits of the leftmost match, or nil. */
  function Capture(p: Pattern, s: string): (r: Option<nat>)
    ensures r.None? <==> forall k | 0 <= k <= |s| :: !MatchesAt(p, s, k)
  {
    match LeftmostFrom(p, s, 0)
    case None => None
    case Some(i) =>
      var c := CaptureStart(p, i);
      Some(DigitsValue(s[c..c + DigitRun(s, c)]))
  }

  /** A leftmost match is the first match: a match with none before it is the one found. */
  lemma LeftmostIsFirst(p: Pattern, s: string, i: nat, j: nat)
    requires i <= j <= |s| && MatchesAt(p, s, j)
    requires forall k | i <= k < j :: !MatchesAt(p, s, k)
    ensures LeftmostFrom(p, s, i) == Some(j)
  {
  }

  /**
   * The first "Scan <digits>" of a title gives its scan number: the digits
   * after "Scan " read by `to_i`, leading zeros and all.
   */
  lemma TitleScanOfDigits(p: string, d: string, rest: string)
    requires d != [] && AllDigits(d)
    requires rest == [] || !IsDigit(rest[0])
    requires forall k | 0 <= k < |p| :: !MatchesAt(TitleScan, p + "Scan " + d + rest, k)
    ensures Capture(TitleScan, p + "Scan " + d + rest) == Some(DigitsValue(d))
  {
    var s := p + "Scan " + d + rest;
    DigitRunOfNumeral(p + "Scan ", d, rest);
    assert s[|p|..|p| + 5] == "Scan ";
    assert MatchesAt(TitleScan, s, |p|);
    LeftmostIsFirst(TitleScan, s, 0, |p|);
    assert s[|p| + 5..|p| + 5 + |d|] == d;
  }

  /** A title that begins with "Scan <n>" carries scan number `n`. */
  lemma TitleScanOfNumeral(n: nat, rest: string)
    requires rest == [] || !IsDigit(rest[0])
    ensures Capture(TitleScan, "Scan " + Decimal(n) + rest) == Some(n)
  {
    assert "" + "Scan " + Decimal(n) + rest == "Scan " + Decimal(n) + rest;
    TitleScanOfDigits("", Decimal(n), rest);
    DecimalRoundTrip(n);
  }

  /** A line that begins with "TITLE=Scan <n> " names ETD scan `n`. */
  lemma EtdTitleOfNumeral(n: nat, rest: string)
    ensures Capture(EtdTitleLine, "TITLE=Scan " + Decimal(n) + " " + rest) == Some(n)
  {
    var s := "TITLE=Scan " + Decimal(n) + " " + rest;
    assert s == "TITLE=Scan " + Decimal(n) + (" " + rest);
    DigitRunOfNumeral("TITLE=Scan ", Decimal(n), " " + rest);
    assert OccursAt(s, "TITLE=Scan", 0);
    assert s[11 + |Decimal(n)|] == ' ';
    assert MatchesAt(EtdTitleLine, s, 0);
    assert s[11..11 + |Decimal(n)|] == Decimal(n);
    DecimalRoundTrip(n);
  }
}
