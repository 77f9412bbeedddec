/** Models of the Rust standard-library operations on strings, integers and
    paths that the tmux-fzy code relies on: `str::find`, `str::split`,
    `str::lines`, `str::split_once`, `str::strip_suffix`, `str::trim`,
    `slice::join`, unsigned `from_str`, `Display` for unsigned integers,
    `String::from_utf8_lossy` and `Path::file_name`.  Strings are sequences of `char`; byte offsets and
    character offsets coincide for the single-byte text the model assumes. */
module RustText {

  datatype Option<T> = None | Some(value: T) {
    function GetOr(default: T): T {
      match this
      case Some(v) => v
      case None => default
    }
  }

  datatype Result<T, E> = Ok(value: T) | Err(error: E)

  /** 64-bit `usize`, 16-bit `u16` and 8-bit `u8`. */
  const USIZE_LIMIT: int := 0x1_0000_0000_0000_0000
  type Usize = n: int | 0 <= n < USIZE_LIMIT
  type U16 = n: int | 0 <= n < 0x1_0000
  type U8 = n: int | 0 <= n < 0x100

  /** `a.saturating_sub(b)` on unsigned integers. */
  function SaturatingSub(a: nat, b: nat): (r: nat)
    ensures r == 0 || r + b == a
    ensures r <= a
  {
    if a < b then 0 else a - b
  }

  /** `a + b` on `usize` in a build without overflow checks: wraps modulo 2^64. */
  function WrappingAdd(a: Usize, b: Usize): (r: Usize)
    ensures a + b < USIZE_LIMIT ==> r == a + b
    ensures a + b >= USIZE_LIMIT ==> r == a + b - USIZE_LIMIT
  {
    (a + b) % USIZE_LIMIT
  }

  // ---------------------------------------------------------------------
  // Lossy UTF-8 decoding

  /** U+FFFD, which `String::from_utf8_lossy` puts in place of each
      ill-formed part of its input. */
  const REPLACEMENT: char := '\U{FFFD}'

  /** The number of bytes of the sequence a lead byte starts, or 0 for a
      byte that starts none (a continuation byte, 0xC0, 0xC1, 0xF5 and up). */
  function SequenceLength(lead: U8): nat {
    if lead < 0x80 then 1
    else if 0xC2 <= lead <= 0xDF then 2
    else if 0xE0 <= lead <= 0xEF then 3
    else if 0xF0 <= lead <= 0xF4 then 4
    else 0
  }

  /** `b` may follow `lead` as the `k`-th byte of its sequence: the first
      continuation after 0xE0, 0xED, 0xF0 and 0xF4 is narrowed so that no
      sequence is overlong, a surrogate or beyond U+10FFFF. */
  predicate Continues(lead: U8, k: nat, b: U8) {
    if k == 1 && lead == 0xE0 then 0xA0 <= b <= 0xBF
    else if k == 1 && lead == 0xED then 0x80 <= b <= 0x9F
    else if k == 1 && lead == 0xF0 then 0x90 <= b <= 0xBF
    else if k == 1 && lead == 0xF4 then 0x80 <= b <= 0x8F
    else 0x80 <= b <= 0xBF
  }

  function Scalar2(a: U8, b: U8): char
    requires SequenceLength(a) == 2 && Continues(a, 1, b)
  {
    ((a - 0xC0) * 0x40 + (b - 0x80)) as char
  }

  function Scalar3(a: U8, b: U8, c: U8): char
    requires SequenceLength(a) == 3 && Continues(a, 1, b) && Continues(a, 2, c)
  {
    ((a - 0xE0) * 0x1000 + (b - 0x80) * 0x40 + (c - 0x80)) as char
  }

  function Scalar4(a: U8, b: U8, c: U8, d: U8): char
    requires SequenceLength(a) == 4 && Continues(a, 1, b) && Continues(a, 2, c) && Continues(a, 3, d)
  {
    ((a - 0xF0) * 0x4_0000 + (b - 0x80) * 0x1000 + (c - 0x80) * 0x40 + (d - 0x80)) as char
  }

  /** The first character of a lossy decoding and the number of bytes it
      takes: a well-formed sequence gives its character; otherwise the
      longest prefix that could still begin one (at least the lead) gives
      one U+FFFD, as Rust's `Utf8Chunks` cuts its invalid parts. */
  function DecodeOne(bs: seq<U8>): (r: (char, nat))
    requires bs != []
    ensures 1 <= r.1 <= |bs|
    ensures r.1 <= SequenceLength(bs[0]) || r == (REPLACEMENT, 1)
  {
    var lead := bs[0];
    var n := SequenceLength(lead);
    if n == 1 then (lead as char, 1)
    else if n == 0 || |bs| < 2 || !Continues(lead, 1, bs[1]) then (REPLACEMENT, 1)
    else if n == 2 then (Scalar2(lead, bs[1]), 2)
    else if |bs| < 3 || !Continues(lead, 2, bs[2]) then (REPLACEMENT, 2)
    else if n == 3 then (Scalar3(lead, bs[1], bs[2]), 3)
    else if |bs| < 4 || !Continues(lead, 3, bs[3]) then (REPLACEMENT, 3)
    else (Scalar4(lead, bs[1], bs[2], bs[3]), 4)
  }

  /** `String::from_utf8_lossy`: at least one character for every
      non-empty input, and never more characters than bytes. */
  function DecodeLossy(bs: seq<U8>): (s: string)
    ensures |s| <= |bs|
    ensures s == [] <==> bs == []
    decreases |bs|
  {
    if bs == [] then []
    else
      var (c, n) := DecodeOne(bs);
      [c] + DecodeLossy(bs[n..])
  }

  /** ASCII bytes decode to the characters with the same numbers. */
  lemma {:induction false} DecodeAscii(bs: seq<U8>)
    requires forall k :: 0 <= k < |bs| ==> bs[k] < 0x80
    ensures DecodeLossy(bs) == seq(|bs|, k requires 0 <= k < |bs| => bs[k] as char)
    decreases |bs|
  {
    if bs != [] {
      var rest := bs[1..];
      assert DecodeOne(bs) == (bs[0] as char, 1);
      assert forall k :: 0 <= k < |rest| ==> rest[k] == bs[k + 1];
      DecodeAscii(rest);
    }
  }

  /** A two-byte sequence decodes to one character; a byte that starts
      nothing, and a sequence cut short, each become one U+FFFD. */
  lemma DecodeExamples()
    ensures DecodeLossy([0xC3, 0xA9]) == "\U{E9}"
    ensures DecodeLossy([0xFF, 0x41]) == [REPLACEMENT, 'A']
    ensures DecodeLossy([0xE2, 0x82]) == [REPLACEMENT]
  {
    assert [0xFF, 0x41][1..] == [0x41];
  }

  // ---------------------------------------------------------------------
  // Searching, splitting and joining

  /** `pat` occurs in `s` at offset `j`. */
  predicate Occurs(s: string, pat: string, j: nat) {
    j + |pat| <= |s| && s[j..j + |pat|] == pat
  }

  /** `s.find(pat)`: the offset of the leftmost occurrence of `pat`. */
  function Find(s: string, pat: string): (r: Option<nat>)
    requires pat != []
    ensures r.Some? ==> Occurs(s, pat, r.value)
    ensures r.Some? ==> forall j :: 0 <= j < r.value ==> !Occurs(s, pat, j)
    ensures r.None? ==> forall j :: 0 <= j ==> !Occurs(s, pat, j)
    decreases |s|
  {
    if |s| < |pat| then None
    else if s[..|pat|] == pat then Some(0)
    else
      assert !Occurs(s, pat, 0) by { assert s[0..|pat|] == s[..|pat|]; }
      var rest := Find(s[1..], pat);
      match rest
      case None =>
        forall j | 1 <= j ensures !Occurs(s, pat, j) {
          ShiftOccurs(s, pat, j - 1);
        }
        None
      case Some(i) =>
        ShiftOccurs(s, pat, i);
        forall j | 1 <= j < i + 1 ensures !Occurs(s, pat, j) {
          ShiftOccurs(s, pat, j - 1);
        }
        Some(i + 1)
  }

  lemma ShiftOccurs(s: string, pat: string, j: nat)
    requires s != []
    ensures Occurs(s[1..], pat, j) == Occurs(s, pat, j + 1)
  {
    if j + 1 + |pat| <= |s| {
      assert s[1..][j..j + |pat|] == s[j + 1..j + 1 + |pat|];
    }
  }

  /** `parts.join(sep)`. */
  function Join(parts: seq<string>, sep: string): string
    decreases |parts|
  {
    if parts == [] then []
    else if |parts| == 1 then parts[0]
    else parts[0] + sep + Join(parts[1..], sep)
  }

  /** A join ends with the last character of its last part. */
  lemma {:induction false} JoinLast(parts: seq<string>, sep: string)
    requires parts != [] && parts[|parts| - 1] != []
    ensures Join(parts, sep) != []
    ensures Join(parts, sep)[|Join(parts, sep)| - 1] == parts[|parts| - 1][|parts[|parts| - 1]| - 1]
    decreases |parts|
  {
    if |parts| > 1 {
      var tail := parts[1..];
      assert tail[|tail| - 1] == parts[|parts| - 1];
      JoinLast(tail, sep);
      assert Join(parts, sep) == parts[0] + sep + Join(tail, sep);
    }
  }

  /** A character in neither the parts nor the separator is not in the join. */
  lemma {:induction false} JoinAvoids(parts: seq<string>, sep: string, c: char)
    requires c !in sep && forall i :: 0 <= i < |parts| ==> c !in parts[i]
    ensures c !in Join(parts, sep)
    decreases |parts|
  {
    if |parts| > 1 {
      var tail := parts[1..];
      assert forall i :: 0 <= i < |tail| ==> tail[i] == parts[i + 1];
      JoinAvoids(tail, sep, c);
      assert Join(parts, sep) == parts[0] + sep + Join(tail, sep);
    }
  }

  /** `s.split(pat).collect()`: the pieces between the leftmost
      non-overlapping occurrences of `pat`. */
  function Split(s: string, pat: string): (r: seq<string>)
    requires pat != []
    ensures r != []
    ensures Join(r, pat) == s
    ensures forall k :: 0 <= k < |r| ==> Find(r[k], pat).None?
    decreases |s|
  {
    match Find(s, pat)
    case None => [s]
    case Some(i) =>
      var rest := Split(s[i + |pat|..], pat);
      assert Find(s[..i], pat).None? by {
        forall j | 0 <= j ensures !Occurs(s[..i], pat, j) {
          if j + |pat| <= i {
            assert s[..i][j..j + |pat|] == s[j..j + |pat|];
            assert !Occurs(s, pat, j);
          }
        }
      }
      assert s == s[..i] + pat + s[i + |pat|..];
      [s[..i]] + rest
  }

  /** Splitting at a first match: the text before it, then the pieces of
      the text after it. */
  lemma SplitAtFirst(a: string, pat: string, b: string)
    requires pat != [] && Find(a + pat + b, pat) == Some(|a|)
    ensures Split(a + pat + b, pat) == [a] + Split(b, pat)
  {
    var s := a + pat + b;
    assert s[..|a|] == a;
    assert s[|a| + |pat|..] == b;
  }

  /** `s.split_once(c)`: the text before and after the first `c`. */
  function SplitOnce(s: string, c: char): (r: Option<(string, string)>)
    ensures r.None? <==> c !in s
    ensures r.Some? ==> s == r.value.0 + [c] + r.value.1 && c !in r.value.0
  {
    match Find(s, [c])
    case None =>
      assert forall j :: 0 <= j < |s| ==> s[j] != c by {
        forall j | 0 <= j < |s| ensures s[j] != c {
          assert !Occurs(s, [c], j);
          assert s[j..j + 1] == [s[j]];
        }
      }
      None
    case Some(i) =>
      assert s[i..i + 1] == [s[i]];
      assert forall j :: 0 <= j < i ==> s[j] != c by {
        forall j | 0 <= j < i ensures s[j] != c {
          assert !Occurs(s, [c], j);
          assert s[j..j + 1] == [s[j]];
        }
      }
      assert s == s[..i] + [c] + s[i + 1..];
      Some((s[..i], s[i + 1..]))
  }

  /** `s.strip_suffix(c)`. */
  function StripSuffix(s: string, c: char): (r: Option<string>)
    ensures r.Some? <==> (s != [] && s[|s| - 1] == c)
    ensures r.Some? ==> s == r.value + [c]
  {
    if s != [] && s[|s| - 1] == c then Some(s[..|s| - 1]) else None
  }

  // ---------------------------------------------------------------------
  // Lines

  /** Removes one trailing carriage return, as `str::lines` does with a
      line terminated by "\r\n". */
  function StripCr(l: string): string {
    if l != [] && l[|l| - 1] == '\r' then l[..|l| - 1] else l
  }

  /** `s.lines().collect()`: the text is cut at every '\n', a "\r\n" ending is
      removed whole, and a final line terminator does not start an empty
      last line. */
  function Lines(s: string): (r: seq<string>)
    ensures forall k :: 0 <= k < |r| ==> '\n' !in r[k]
    ensures s == [] <==> r == []
    decreases |s|
  {
    if s == [] then []
    else match SplitOnce(s, '\n')
      case None => [s]
      case Some((line, rest)) => [StripCr(line)] + Lines(rest)
  }

  /** A text that `Lines` gives back unchanged when it is one of the lines. */
  predicate PlainLine(l: string) {
    l != [] && '\n' !in l && l[|l| - 1] != '\r'
  }

  /** The first line of a text is cut at its first '\n'. */
  lemma LinesOfFirst(line: string, rest: string)
    requires '\n' !in line
    ensures Lines(line + ['\n'] + rest) == [StripCr(line)] + Lines(rest)
  {
    SplitOnceAtFirst(line, rest, '\n');
  }

  /** Joining lines with "\n" and cutting the result with `str::lines`
      gives the same lines back. */
  lemma {:induction false} LinesOfJoin(ls: seq<string>)
    requires forall k :: 0 <= k < |ls| ==> PlainLine(ls[k])
    ensures Lines(Join(ls, "\n")) == ls
    decreases |ls|
  {
    if |ls| == 1 {
      assert SplitOnce(ls[0], '\n').None?;
    } else if |ls| > 1 {
      var tail := Join(ls[1..], "\n");
      assert Join(ls, "\n") == ls[0] + ['\n'] + tail;
      LinesOfFirst(ls[0], tail);
      assert forall k :: 0 <= k < |ls[1..]| ==> PlainLine(ls[1..][k]);
      LinesOfJoin(ls[1..]);
      assert ls == [ls[0]] + ls[1..];
    }
  }

  /** `split_once` stops at the first occurrence of `c`. */
  lemma SplitOnceAtFirst(a: string, b: string, c: char)
    requires c !in a
    ensures SplitOnce(a + [c] + b, c) == Some((a, b))
  {
    var s := a + [c] + b;
    assert Occurs(s, [c], |a|) by { assert s[|a|..|a| + 1] == [c]; }
    forall j | 0 <= j < |a| ensures !Occurs(s, [c], j) {
      assert s[j..j + 1] == [a[j]];
    }
    assert Find(s, [c]) == Some(|a|);
    assert s[..|a|] == a && s[|a| + 1..] == b;
  }

  // ---------------------------------------------------------------------
  // Whitespace

  /** `char::is_whitespace`: the Unicode White_Space property. */
  predicate IsWhitespace(c: char) {
    c == ' ' || ('\t' <= c <= '\r') || c == '\U{85}' || c == '\U{A0}' ||
    c == '\U{1680}' || ('\U{2000}' <= c <= '\U{200A}') || c == '\U{2028}' ||
    c == '\U{2029}' || c == '\U{202F}' || c == '\U{205F}' || c == '\U{3000}'
  }

  function TrimStart(s: string): (r: string)
    ensures |r| <= |s| && r == s[|s| - |r|..]
    ensures r != [] ==> !IsWhitespace(r[0])
    decreases |s|
  {
    if s != [] && IsWhitespace(s[0]) then TrimStart(s[1..]) else s
  }

  function TrimEnd(s: string): (r: string)
    ensures |r| <= |s| && r == s[..|r|]
    ensures r != [] ==> !IsWhitespace(r[|r| - 1])
    decreases |s|
  {
    if s != [] && IsWhitespace(s[|s| - 1]) then TrimEnd(s[..|s| - 1]) else s
  }

  /** `s.trim()`. */
  function Trim(s: string): string {
    TrimEnd(TrimStart(s))
  }

  // ---------------------------------------------------------------------
  // Decimal numbers

  predicate IsDigit(c: char) {
    '0' <= c <= '9'
  }

  predicate AllDigits(s: string) {
    forall k :: 0 <= k < |s| ==> IsDigit(s[k])
  }

  /** The number a string of decimal digits denotes. */
  function DecimalValue(s: string): nat
    requires AllDigits(s)
    decreases |s|
  {
    if s == [] then 0
    else DecimalValue(s[..|s| - 1]) * 10 + (s[|s| - 1] as int - '0' as int)
  }

  function DigitChar(d: nat): (c: char)
    requires d < 10
    ensures IsDigit(c) && c as int - '0' as int == d
  {
    (d + '0' as int) as char
  }

  /** `n.to_string()` for an unsigned integer. */
  function NatToString(n: nat): (r: string)
    ensures r != [] && AllDigits(r) && DecimalValue(r) == n
    ensures |r| > 1 ==> r[0] != '0'
    decreases n
  {
    if n < 10 then [DigitChar(n)]
    else
      var r := NatToString(n / 10) + [DigitChar(n % 10)];
      assert r[..|r| - 1] == NatToString(n / 10);
      r
  }

  /** `s.parse::<T>()` for an unsigned integer type whose values are below
      `limit`: an optional leading '+', then at least one decimal digit and
      nothing else, and a value that fits. */
  function ParseUnsigned(s: string, limit: nat): (r: Option<nat>)
    ensures r.Some? ==> r.value < limit
  {
    var digits := if s != [] && s[0] == '+' then s[1..] else s;
    if digits != [] && AllDigits(digits) && DecimalValue(digits) < limit
    then Some(DecimalValue(digits))
    else None
  }

  /** Printing and parsing an unsigned number are inverse. */
  lemma ParseOfNatToString(n: nat, limit: nat)
    requires n < limit
    ensures ParseUnsigned(NatToString(n), limit) == Some(n)
  {
    var s := NatToString(n);
    assert IsDigit(s[0]);
  }

  // ---------------------------------------------------------------------
  // Paths

  /** The components of a '/'-separated path that `Path::components`
      keeps: empty pieces (repeated or trailing separators) and "." are
      dropped. */
  function Components(pieces: seq<string>): (r: seq<string>)
    ensures forall k :: 0 <= k < |r| ==> r[k] != [] && r[k] != "."
    decreases |pieces|
  {
    if pieces == [] then []
    else if pieces[0] == [] || pieces[0] == "." then Components(pieces[1..])
    else [pieces[0]] + Components(pieces[1..])
  }

  /** `Path::new(p).file_name()`: the last component, unless the path has
      none (empty, "/", ".") or ends in "..". */
  function FileName(p: string): (r: Option<string>)
    ensures r.Some? ==> r.value != [] && r.value != "." && r.value != ".."
    ensures r.Some? ==> Find(r.value, "/").None?
  {
    var cs := Components(Split(p, "/"));
    if cs == [] || cs[|cs| - 1] == ".." then None
    else
      ComponentsFrom(Split(p, "/"), |cs| - 1);
      Some(cs[|cs| - 1])
  }

  lemma {:induction false} ComponentsFrom(pieces: seq<string>, k: nat)
    requires forall i :: 0 <= i < |pieces| ==> Find(pieces[i], "/").None?
    requires k < |Components(pieces)|
    ensures Find(Components(pieces)[k], "/").None?
    decreases |pieces|
  {
    if pieces[0] == [] || pieces[0] == "." {
      ComponentsFrom(pieces[1..], k);
    } else if k > 0 {
      ComponentsFrom(pieces[1..], k - 1);
    }
  }
}
