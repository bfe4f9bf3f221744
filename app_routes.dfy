/**
 * The two decision procedures of the Flask application factory: the single-page
 * fallback of the static frontend route, and the byte-range handling of the
 * processed-video route, which reads a `Range: bytes=a-b` header (section 2.1 of
 * RFC 7233) and builds a 206 response with `Content-Length` and `Content-Range`
 * (section 4.2 of RFC 7233).
 */
module AppRoutes {
  import opened Wrappers
  import opened Decimal

  // ---------------------------------------------------------------------------
  // Frontend fallback

  const IndexHtml: string := "index.html"

  /**
   * The file under the static folder served for `path`: the file itself when the path
   * is non-empty and exists there, `index.html` otherwise (so client-side routes load
   * the single-page application).
   */
  function ServeFrontend(path: string, pathExists: string -> bool): (served: string)
    ensures served == path || served == IndexHtml
    ensures served == path && path != IndexHtml ==> path != "" && pathExists(path)
    ensures path == "" || !pathExists(path) ==> served == IndexHtml
    ensures pathExists(IndexHtml) ==> pathExists(served)
    ensures path != "" && pathExists(path) ==> served == path
  {
    if path != "" && pathExists(path) then path else IndexHtml
  }

  // ---------------------------------------------------------------------------
  // Python string operations used by the range parser

  /** `pat` occurs in `s` at position `i`. */
  predicate OccursAt(s: string, pat: string, i: int) {
    0 <= i && i + |pat| <= |s| && s[i..i + |pat|] == pat
  }

  /**
   * Python's `s.replace(pat, '')`: one left-to-right scan that drops every
   * non-overlapping occurrence of `pat`.
   */
  function RemoveAll(s: string, pat: string): (r: string)
    requires |pat| > 0
    ensures |r| <= |s|
    ensures (forall i :: 0 <= i < |s| ==> !OccursAt(s, pat, i)) ==> r == s
    ensures forall c :: c in r ==> c in s
    decreases |s|
  {
    if |s| >= |pat| && s[..|pat|] == pat then
      assert OccursAt(s, pat, 0);
      RemoveAll(s[|pat|..], pat)
    else if s == [] then
      []
    else
      assert forall i :: 0 <= i < |s| - 1 ==> (OccursAt(s, pat, i + 1) <==> OccursAt(s[1..], pat, i));
      [s[0]] + RemoveAll(s[1..], pat)
  }

  /** Position of the first `c` in `s`, or `|s|` when there is none. */
  function IndexOf(s: string, c: char): (i: nat)
    ensures i <= |s| && (i < |s| ==> s[i] == c)
    ensures forall j :: 0 <= j < i ==> s[j] != c
    decreases |s|
  {
    if s == [] then 0 else if s[0] == c then 0 else 1 + IndexOf(s[1..], c)
  }

  /** The parts joined back together with `c` between consecutive ones. */
  function Join(parts: seq<string>, c: char): string
    requires |parts| >= 1
    decreases |parts|
  {
    if |parts| == 1 then parts[0] else parts[0] + [c] + Join(parts[1..], c)
  }

  /**
   * Python's `s.split(c)`: the maximal runs between the occurrences of `c`; one part
   * more than there are occurrences, none containing `c`, and joining them gives `s`.
   */
  function Split(s: string, c: char): (parts: seq<string>)
    ensures |parts| == multiset(s)[c] + 1
    ensures forall k :: 0 <= k < |parts| ==> c !in parts[k]
    ensures Join(parts, c) == s
    decreases |s|
  {
    var i := IndexOf(s, c);
    if i == |s| then
      assert c !in s;
      [s]
    else
      var rest := Split(s[i + 1..], c);
      assert s == s[..i] + [c] + s[i + 1..];
      assert multiset(s) == multiset(s[..i]) + multiset([c]) + multiset(s[i + 1..]);
      assert c !in s[..i];
      assert ([s[..i]] + rest)[1..] == rest;
      [s[..i]] + rest
  }

  /** Splitting two `c`-free texts joined by one `c` gives the two texts back. */
  lemma SplitTwo(a: string, b: string, c: char)
    requires c !in a && c !in b
    ensures Split(a + [c] + b, c) == [a, b]
  {
    var s := a + [c] + b;
    assert s[|a|] == c;
    assert forall j :: 0 <= j < |a| ==> s[j] == a[j] && a[j] in a;
    var i := IndexOf(s, c);
    assert i == |a|;
    assert s[..i] == a && s[i + 1..] == b;
    assert forall j :: 0 <= j < |b| ==> b[j] in b;
    assert IndexOf(b, c) == |b|;
    assert Split(b, c) == [b];
    assert Split(s, c) == [a] + Split(b, c);
  }

  /** ASCII characters Python's `int()` strips around a number. */
  predicate IsSpace(c: char) {
    // space, and tab through carriage return
    c == ' ' || 9 <= c as int <= 13
  }

  /** The first position at or after `i` that holds no space (`|s|` if none does). */
  function SkipSpaces(s: string, i: nat): (k: nat)
    requires i <= |s|
    ensures i <= k <= |s|
    ensures forall j :: i <= j < k ==> IsSpace(s[j])
    ensures k < |s| ==> !IsSpace(s[k])
    decreases |s| - i
  {
    if i < |s| && IsSpace(s[i]) then SkipSpaces(s, i + 1) else i
  }

  /** The end of `s[lo..hi]` once its trailing spaces are dropped. */
  function DropTrailingSpaces(s: string, lo: nat, hi: nat): (k: nat)
    requires lo <= hi <= |s|
    ensures lo <= k <= hi
    ensures forall j :: k <= j < hi ==> IsSpace(s[j])
    ensures k > lo ==> !IsSpace(s[k - 1])
    decreases hi
  {
    if hi > lo && IsSpace(s[hi - 1]) then DropTrailingSpaces(s, lo, hi - 1) else hi
  }

  /** Where the stripped text starts. */
  function StripStart(s: string): nat {
    SkipSpaces(s, 0)
  }

  /**
   * The stripping `int()` does, for the characters above: the text between the leading
   * and the trailing run of spaces, which holds every other character of `s`.
   */
  function Strip(s: string): (t: string)
    ensures StripStart(s) + |t| <= |s| && t == s[StripStart(s)..StripStart(s) + |t|]
    ensures t != [] ==> !IsSpace(t[0]) && !IsSpace(t[|t| - 1])
    ensures forall j :: 0 <= j < |s| && !IsSpace(s[j]) ==> StripStart(s) <= j < StripStart(s) + |t|
  {
    var start := SkipSpaces(s, 0);
    s[start..DropTrailingSpaces(s, start, |s|)]
  }

  /** The text after an optional leading sign. */
  function Unsigned(t: string): string {
    if t != [] && (t[0] == '+' || t[0] == '-') then t[1..] else t
  }

  /**
   * The most digits `int()` converts (`sys.int_info.default_max_str_digits`); leading
   * zeros count, the sign and surrounding whitespace do not.
   */
  const INT_MAX_STR_DIGITS: nat := 4300

  /**
   * Python's `int(s)` on ASCII text: surrounding whitespace, an optional sign, then
   * one to `INT_MAX_STR_DIGITS` decimal digits; anything else is a `ValueError` (here
   * `None`).
   */
  function PyInt(s: string): (r: Option<int>)
    ensures AllDigits(s) && s != [] ==> r == if |s| <= INT_MAX_STR_DIGITS then Some(DigitsValue(s)) else None
    ensures r.Some? && '-' !in s ==> r.value >= 0
  {
    var t := Strip(s);
    var digits := Unsigned(t);
    if digits != [] && AllDigits(digits) && |digits| <= INT_MAX_STR_DIGITS then
      var value: int := DigitsValue(digits);
      DigitsUntouched(s);
      StrippedFromText(s);
      Some(if t[0] == '-' then -value else value)
    else
      DigitsUntouched(s);
      None
  }

  /** A digit run has nothing to strip and no sign. */
  lemma DigitsUntouched(s: string)
    ensures AllDigits(s) && s != [] ==> Strip(s) == s && Unsigned(s) == s
  {
    if AllDigits(s) && s != [] {
      assert IsDigit(s[0]) && IsDigit(s[|s| - 1]);
    }
  }

  /** The stripped text's first character comes from the text. */
  lemma StrippedFromText(s: string)
    ensures Strip(s) != [] ==> Strip(s)[0] in s
  {
    if Strip(s) != [] {
      assert Strip(s)[0] == s[StripStart(s)];
    }
  }

  /** A character other than a digit, a space or a sign makes `int()` fail. */
  lemma StrayCharRejected(s: string, i: int)
    requires 0 <= i < |s| && !IsDigit(s[i]) && !IsSpace(s[i]) && s[i] != '+' && s[i] != '-'
    ensures PyInt(s) == None
  {
    var t := Strip(s);
    var lead := StripStart(s);
    var digits := Unsigned(t);
    assert lead <= i < lead + |t|;
    assert t[i - lead] == s[i];
    if t[0] == '+' || t[0] == '-' {
      assert digits[i - lead - 1] == s[i];
    } else {
      assert digits[i - lead] == s[i];
    }
  }

  predicate AllSpaces(s: string) {
    forall i :: 0 <= i < |s| ==> IsSpace(s[i])
  }

  /** Spaces, an optional sign, a run of digits and spaces: `int()`'s texts but for their length. */
  predicate IntShape(pre: string, sign: string, d: string, post: string) {
    AllSpaces(pre) && AllSpaces(post) && (sign == "" || sign == "+" || sign == "-")
    && d != [] && AllDigits(d)
  }

  /** The texts `int()` accepts: that shape with at most `INT_MAX_STR_DIGITS` digits. */
  predicate IntText(pre: string, sign: string, d: string, post: string) {
    IntShape(pre, sign, d, post) && |d| <= INT_MAX_STR_DIGITS
  }

  /** The value of a digit run under a sign. */
  function Signed(sign: string, d: string): int
    requires AllDigits(d)
  {
    var v: int := DigitsValue(d);
    if sign == "-" then -v else v
  }

  /** Stripping starts at the first character that is not a space. */
  lemma StripStartAt(s: string, n: nat)
    requires n < |s| && AllSpaces(s[..n]) && !IsSpace(s[n])
    ensures StripStart(s) == n
  {
    assert forall j :: 0 <= j < n ==> s[j] == s[..n][j];
  }

  /** Stripping ends after the last character that is not a space. */
  lemma StripEndAt(s: string, lo: nat, m: nat)
    requires lo < m <= |s| && AllSpaces(s[m..]) && !IsSpace(s[m - 1])
    ensures DropTrailingSpaces(s, lo, |s|) == m
  {
    assert forall j :: m <= j < |s| ==> s[j] == s[m..][j - m];
  }

  /** Spaces around a text that neither starts nor ends with one are stripped off exactly. */
  lemma StripAround(pre: string, t: string, post: string)
    requires AllSpaces(pre) && AllSpaces(post) && t != [] && !IsSpace(t[0]) && !IsSpace(t[|t| - 1])
    ensures Strip(pre + t + post) == t
  {
    var s := pre + t + post;
    var m := |pre| + |t|;
    assert s[..|pre|] == pre && s[|pre|] == t[0];
    StripStartAt(s, |pre|);
    assert s[m..] == post && s[m - 1] == t[|t| - 1];
    StripEndAt(s, |pre|, m);
    assert s[|pre|..m] == t;
  }

  /** `int()` accepts every text of that shape, with the value its sign and digits give. */
  lemma PyIntAccepts(pre: string, sign: string, d: string, post: string)
    requires IntText(pre, sign, d, post)
    ensures PyInt(pre + sign + d + post) == Some(Signed(sign, d))
  {
    var t := sign + d;
    assert pre + sign + d + post == pre + t + post;
    assert t[|t| - 1] == d[|d| - 1] && IsDigit(d[|d| - 1]);
    assert IsDigit(d[0]);
    assert t[0] == if sign == "" then d[0] else sign[0];
    StripAround(pre, t, post);
    UnsignedOfSigned(sign, d);
    PyIntOfStripped(pre + t + post, t);
  }

  /** A digit run longer than `INT_MAX_STR_DIGITS` is refused, whatever surrounds it. */
  lemma TooManyDigitsRejected(pre: string, sign: string, d: string, post: string)
    requires IntShape(pre, sign, d, post) && |d| > INT_MAX_STR_DIGITS
    ensures PyInt(pre + sign + d + post) == None
  {
    var t := sign + d;
    assert pre + sign + d + post == pre + t + post;
    assert t[|t| - 1] == d[|d| - 1] && IsDigit(d[|d| - 1]);
    assert IsDigit(d[0]);
    assert t[0] == if sign == "" then d[0] else sign[0];
    StripAround(pre, t, post);
    UnsignedOfSigned(sign, d);
  }

  lemma UnsignedOfSigned(sign: string, d: string)
    requires (sign == "" || sign == "+" || sign == "-") && d != [] && IsDigit(d[0])
    ensures Unsigned(sign + d) == d && SignOf(sign + d) == sign
  {
    if sign != "" {
      assert (sign + d)[1..] == d;
    }
  }

  /** The sign a stripped text starts with, if any. */
  function SignOf(t: string): string {
    if t != [] && (t[0] == '+' || t[0] == '-') then t[..1] else ""
  }

  /** A text is its sign followed by the rest. */
  lemma SignSplit(t: string)
    ensures t == SignOf(t) + Unsigned(t)
    ensures SignOf(t) == "" || SignOf(t) == "+" || SignOf(t) == "-"
    ensures SignOf(t) == "-" <==> t != [] && t[0] == '-'
  {
  }

  /** `int()` of a text whose stripped text is `t`, once the sign is taken off `t`. */
  lemma PyIntOfStripped(s: string, t: string)
    requires Strip(s) == t && Unsigned(t) != [] && AllDigits(Unsigned(t)) && |Unsigned(t)| <= INT_MAX_STR_DIGITS
    ensures PyInt(s) == Some(Signed(SignOf(t), Unsigned(t)))
  {
    SignSplit(t);
  }

  /** A text is its leading spaces, its stripped text and its trailing spaces. */
  lemma StripSplits(s: string)
    ensures var start := StripStart(s); var stop := start + |Strip(s)|;
      && s == s[..start] + Strip(s) + s[stop..] && AllSpaces(s[..start]) && AllSpaces(s[stop..])
  {
    var start := StripStart(s);
    var stop := DropTrailingSpaces(s, start, |s|);
    assert Strip(s) == s[start..stop];
    SliceThree(s, start, stop);
    assert forall j :: 0 <= j < start ==> s[..start][j] == s[j];
    assert forall j :: 0 <= j < |s| - stop ==> s[stop..][j] == s[stop + j];
  }

  lemma SliceThree(s: string, i: nat, j: nat)
    requires i <= j <= |s|
    ensures s == s[..i] + s[i..j] + s[j..]
  {
  }

  /** Conversely, every text `int()` accepts has that shape, and its value is the signed digits'. */
  lemma PyIntShape(s: string)
    ensures PyInt(s).Some? ==>
      exists pre, sign, d, post :: IntText(pre, sign, d, post) && s == pre + sign + d + post && PyInt(s) == Some(Signed(sign, d))
  {
    if PyInt(s).Some? {
      var t := Strip(s);
      var pre, post := s[..StripStart(s)], s[StripStart(s) + |t|..];
      var sign, d := SignOf(t), Unsigned(t);
      StripSplits(s);
      PyIntAcceptsOnly(s);
      PyIntOfStripped(s, t);
      SignSplit(t);
      Regroup(s, pre, t, post, sign, d);
      assert IntText(pre, sign, d, post);
    }
  }

  lemma Regroup(s: string, pre: string, t: string, post: string, sign: string, d: string)
    requires s == pre + t + post && t == sign + d
    ensures s == pre + sign + d + post
  {
  }

  /** `int()` succeeds only when the stripped text is a short enough digit run after an optional sign. */
  lemma PyIntAcceptsOnly(s: string)
    ensures PyInt(s).Some? ==>
      Unsigned(Strip(s)) != [] && AllDigits(Unsigned(Strip(s))) && |Unsigned(Strip(s))| <= INT_MAX_STR_DIGITS
  {
  }

  /** A text with no digit at all, the empty text among them, makes `int()` fail. */
  lemma NoDigitRejected(s: string)
    requires forall i :: 0 <= i < |s| ==> !IsDigit(s[i])
    ensures PyInt(s) == None
  {
  }

  // ---------------------------------------------------------------------------
  // The processed-video route

  /** What the route answers. */
  datatype VideoResponse =
    | NotFound
    | FullFile
    | Partial(byte1: int, byte2: int, length: int, contentRange: string)
    | BadRequest
    | ServerError

  function StatusCode(r: VideoResponse): int {
    match r
    case NotFound => 404
    case FullFile => 200
    case Partial(_, _, _, _) => 206
    case BadRequest => 400
    case ServerError => 500
  }

  /** 2^63: `seek` and `read` take signed 64-bit offsets and sizes. */
  const OFFSET_LIMIT: int := 0x8000_0000_0000_0000

  /**
   * Serving bytes `byte1` through `byte2` once the header has parsed.  `f.seek(byte1)`
   * raises for a negative start or one of 2^63 or more, and `f.read(length)` for a
   * length below -1 or of 2^63 or more; both stand outside the `try`, so either is a
   * 500.  A length of -1 reads the rest of the file; any other answer is a 206.
   */
  function Served(byte1: int, byte2: int, fileSize: int): (r: VideoResponse)
    ensures r.Partial? || r.ServerError?
    ensures r.Partial? <==> 0 <= byte1 < OFFSET_LIMIT && -1 <= byte2 - byte1 + 1 < OFFSET_LIMIT
    ensures r.Partial? ==> r == Partial(byte1, byte2, byte2 - byte1 + 1, ContentRange(byte1, byte2, fileSize))
  {
    var length := byte2 - byte1 + 1;
    if byte1 < 0 || byte1 >= OFFSET_LIMIT then ServerError
    else if length < -1 || length >= OFFSET_LIMIT then ServerError
    else Partial(byte1, byte2, length, ContentRange(byte1, byte2, fileSize))
  }

  /** `bytes {byte1}-{byte2}/{file_size}`, the `Content-Range` value. */
  function ContentRange(byte1: int, byte2: int, fileSize: int): string {
    "bytes " + IntToString(byte1) + "-" + IntToString(byte2) + "/" + IntToString(fileSize)
  }

  /** The text before the first `c` and the text after it are determined by the whole. */
  lemma SeparatorUnique(x: string, y: string, x2: string, y2: string, c: char)
    requires c !in x && c !in x2 && x + [c] + y == x2 + [c] + y2
    ensures x == x2 && y == y2
  {
    var s := x + [c] + y;
    assert forall j :: 0 <= j < |x| ==> s[j] == x[j] && x[j] in x;
    assert forall j :: 0 <= j < |x2| ==> s[j] == x2[j] && x2[j] in x2;
    assert s[|x|] == c && s[|x2|] == c;
    var i := IndexOf(s, c);
    assert i == |x| && i == |x2|;
    assert x == s[..i] == x2;
    assert y == s[i + 1..] == y2;
  }

  /** For bounds and sizes of zero or more, a `Content-Range` value names one range of one size. */
  lemma ContentRangeInjective(a: nat, b: nat, f: nat, a2: nat, b2: nat, f2: nat)
    ensures ContentRange(a, b, f) == ContentRange(a2, b2, f2) <==> a == a2 && b == b2 && f == f2
  {
    if ContentRange(a, b, f) == ContentRange(a2, b2, f2) {
      var sa, sb, sf := NatToString(a), NatToString(b), NatToString(f);
      var ta, tb, tf := NatToString(a2), NatToString(b2), NatToString(f2);
      RangeText(sa, sb, sf);
      RangeText(ta, tb, tf);
      NoDashInDigits(sa);
      NoDashInDigits(ta);
      SeparatorUnique(sa, sb + "/" + sf, ta, tb + "/" + tf, '-');
      NoSlashInDigits(sb);
      NoSlashInDigits(tb);
      SeparatorUnique(sb, sf, tb, tf, '/');
      NatToStringInjective(a, a2);
      NatToStringInjective(b, b2);
      NatToStringInjective(f, f2);
    }
  }

  /** The text after `bytes ` in a `Content-Range` value, grouped at its first `-`. */
  lemma RangeText(x: string, y: string, z: string)
    ensures ("bytes " + x + "-" + y + "/" + z)[6..] == x + ['-'] + (y + ['/'] + z)
  {
  }

  lemma NoSlashInDigits(a: string)
    requires AllDigits(a)
    ensures '/' !in a
  {
    assert forall i :: 0 <= i < |a| ==> IsDigit(a[i]);
  }

  /** The parts of a non-empty `Range` header once `bytes=` is removed and it is split on `-`. */
  function RangeParts(header: string): (parts: seq<string>)
    ensures |parts| >= 1 && forall k :: 0 <= k < |parts| ==> '-' !in parts[k]
  {
    Split(RemoveAll(header, "bytes="), '-')
  }

  /**
   * The answer for the parts of a `Range` header: exactly two parts are required, and
   * then the two bounds decide.
   */
  function RangeAnswer(parts: seq<string>, fileSize: int): (r: VideoResponse)
    requires forall k :: 0 <= k < |parts| ==> '-' !in parts[k]
    ensures r.Partial? || r.BadRequest? || r.ServerError?
    ensures |parts| != 2 ==> r.BadRequest?
  {
    if |parts| != 2 then BadRequest else BoundsAnswer(parts[0], parts[1], fileSize)
  }

  /**
   * The answer for the two parts around the `-`.  The first must be an integer; an
   * empty second part means the last byte of the file.  Nothing compares the bounds
   * with each other or with the file size before the file is read.
   */
  function BoundsAnswer(first: string, second: string, fileSize: int): (r: VideoResponse)
    requires '-' !in first && '-' !in second
    ensures r.Partial? || r.BadRequest? || r.ServerError?
    ensures PyInt(first).None? ==> r.BadRequest?
    ensures second != "" && PyInt(second).None? ==> r.BadRequest?
    ensures PyInt(first).Some? && (second == "" || PyInt(second).Some?) ==>
      r == Served(PyInt(first).value, if second == "" then fileSize - 1 else PyInt(second).value, fileSize)
    ensures r.Partial? ==> Some(r.byte1) == PyInt(first)
    ensures r.Partial? ==> if second == "" then r.byte2 == fileSize - 1 else Some(r.byte2) == PyInt(second)
    ensures r.Partial? ==> r.byte1 >= 0 && (r.byte2 >= 0 || r.byte2 == fileSize - 1)
    ensures r.Partial? ==> r.length == r.byte2 - r.byte1 + 1
    ensures r.Partial? ==> r.contentRange == ContentRange(r.byte1, r.byte2, fileSize)
  {
    match PyInt(first)
    case None => BadRequest
    case Some(byte1) =>
      var end := if second != "" then PyInt(second) else Some(fileSize - 1);
      match end
      case None => BadRequest
      case Some(byte2) => Served(byte1, byte2, fileSize)
  }

  /** The answer for a non-empty `Range` header. */
  function ParseRange(header: string, fileSize: int): (r: VideoResponse)
    ensures r.Partial? || r.BadRequest? || r.ServerError?
    ensures |RangeParts(header)| != 2 ==> r.BadRequest?
    ensures r.Partial? ==> Some(r.byte1) == PyInt(RangeParts(header)[0]) && r.length == r.byte2 - r.byte1 + 1
  {
    RangeAnswer(RangeParts(header), fileSize)
  }

  /**
   * The `video` route: 404 when the file is missing, before the header is looked at;
   * the whole file when the header is absent or empty; otherwise the range answer.
   */
  function Video(isFile: bool, rangeHeader: Option<string>, fileSize: nat): (r: VideoResponse)
    ensures !isFile <==> r.NotFound?
    ensures r.FullFile? <==> isFile && (rangeHeader.None? || rangeHeader.value == "")
    ensures r.Partial? || r.BadRequest? || r.ServerError? ==> r == ParseRange(rangeHeader.value, fileSize)
  {
    if !isFile then NotFound
    else if rangeHeader.None? || rangeHeader.value == "" then FullFile
    else ParseRange(rangeHeader.value, fileSize)
  }

  /**
   * No answer is ever 416 Range Not Satisfiable (section 4.4 of RFC 7233): a range the
   * file cannot serve is a 206, or a 500 when `seek` or `read` refuses it.
   */
  lemma NeverRangeNotSatisfiable(isFile: bool, rangeHeader: Option<string>, fileSize: nat)
    ensures StatusCode(Video(isFile, rangeHeader, fileSize)) in {200, 206, 400, 404, 500}
  {
  }

  /** Texts made of digits and dashes, such as a range written out without `bytes=`. */
  predicate DigitsOrDashes(s: string) {
    forall i :: 0 <= i < |s| ==> IsDigit(s[i]) || s[i] == '-'
  }

  lemma NoOccurrenceInDigitsAndDash(s: string)
    requires DigitsOrDashes(s)
    ensures forall i :: 0 <= i < |s| ==> !OccursAt(s, "bytes=", i)
  {
    forall i | 0 <= i < |s|
      ensures !OccursAt(s, "bytes=", i)
    {
      assert IsDigit(s[i]) || s[i] == '-';
    }
  }

  /** Removing `bytes=` from `bytes=` followed by a text without it leaves that text. */
  lemma DropPrefix(t: string)
    requires forall i :: 0 <= i < |t| ==> !OccursAt(t, "bytes=", i)
    ensures RemoveAll("bytes=" + t, "bytes=") == t
  {
    var s := "bytes=" + t;
    assert s[..6] == "bytes=" && s[6..] == t;
  }

  /** The parts of a header made of two digit runs around a `-`, with or without `bytes=`. */
  lemma DigitPartsSplit(a: string, b: string)
    requires AllDigits(a) && AllDigits(b)
    ensures RangeParts("bytes=" + a + "-" + b) == [a, b]
  {
    var t := a + "-" + b;
    DigitsAroundDash(a, b);
    NoOccurrenceInDigitsAndDash(t);
    DropPrefix(t);
    assert "bytes=" + a + "-" + b == "bytes=" + t;
    NoDashInDigits(a);
    NoDashInDigits(b);
    assert t == a + ['-'] + b;
    SplitTwo(a, b, '-');
  }

  lemma DigitsAroundDash(a: string, b: string)
    requires AllDigits(a) && AllDigits(b)
    ensures DigitsOrDashes(a + "-" + b)
  {
    var t := a + "-" + b;
    assert forall i :: 0 <= i < |a| ==> t[i] == a[i];
    assert forall i :: |a| < i < |t| ==> t[i] == b[i - |a| - 1];
  }

  lemma NoDashInDigits(a: string)
    requires AllDigits(a)
    ensures '-' !in a
  {
    assert forall i :: 0 <= i < |a| ==> IsDigit(a[i]);
  }

  /**
   * `replace` removes `bytes=` wherever it occurs, not only at the start: in front of a
   * text of digits and dashes, and anywhere inside one.
   */
  lemma {:induction false} RemoveAllInside(a: string, b: string)
    requires DigitsOrDashes(a) && DigitsOrDashes(b)
    ensures RemoveAll(a + "bytes=" + b, "bytes=") == a + b
    decreases |a|
  {
    if a == [] {
      NoOccurrenceInDigitsAndDash(b);
      assert a + "bytes=" + b == "bytes=" + b;
      DropPrefix(b);
    } else {
      var s := a + "bytes=" + b;
      TailShape(a, b);
      DigitsOrDashesTail(a);
      RemoveAllStep(s, "bytes=");
      RemoveAllInside(a[1..], b);
    }
  }

  lemma TailShape(a: string, b: string)
    requires a != []
    ensures (a + "bytes=" + b)[0] == a[0] && (a + "bytes=" + b)[1..] == a[1..] + "bytes=" + b
    ensures a + b == [a[0]] + (a[1..] + b)
  {
  }

  lemma DigitsOrDashesTail(a: string)
    requires DigitsOrDashes(a) && a != []
    ensures DigitsOrDashes(a[1..]) && a[0] != 'b'
  {
    assert IsDigit(a[0]) || a[0] == '-';
    assert forall i :: 0 <= i < |a| - 1 ==> a[1..][i] == a[i + 1];
  }

  /** A text that does not start with the pattern's first character keeps that character. */
  lemma RemoveAllStep(s: string, pat: string)
    requires |pat| > 0 && s != [] && s[0] != pat[0]
    ensures RemoveAll(s, pat) == [s[0]] + RemoveAll(s[1..], pat)
  {
    if |s| >= |pat| {
      assert s[..|pat|][0] == s[0];
    }
  }

  /** A header with `bytes=` inside it is answered as the header without it. */
  lemma InteriorPrefixIgnored(a: string, b: string, fileSize: nat)
    requires DigitsOrDashes(a) && DigitsOrDashes(b)
    requires a + b != ""
    ensures Video(true, Some(a + "bytes=" + b), fileSize) == Video(true, Some(a + b), fileSize)
  {
    RemoveAllInside(a, b);
    assert DigitsOrDashes(a + b) by {
      assert forall i :: 0 <= i < |a| ==> (a + b)[i] == a[i];
      assert forall i :: |a| <= i < |a| + |b| ==> (a + b)[i] == b[i - |a|];
    }
    NoOccurrenceInDigitsAndDash(a + b);
    assert RangeParts(a + "bytes=" + b) == RangeParts(a + b);
  }

  /** So `0-bytes=10` is served as bytes 0 through 10. */
  lemma InteriorPrefixExample(fileSize: nat)
    ensures Video(true, Some("0-bytes=10"), fileSize) == Partial(0, 10, 11, ContentRange(0, 10, fileSize))
  {
    InteriorPrefixTexts();
    InteriorPrefixIgnored("0-", "10", fileSize);
    ClosedRangeParsed(0, 10, fileSize);
    PrefixOptional("0-10", fileSize);
  }

  lemma InteriorPrefixTexts()
    ensures DigitsOrDashes("0-") && DigitsOrDashes("10")
    ensures "0-" + "bytes=" + "10" == "0-bytes=10" && "0-" + "10" == "0-10"
    ensures "bytes=" + NatToString(0) + "-" + NatToString(10) == "bytes=" + "0-10"
  {
    assert NatToString(0) == "0" && NatToString(10) == "10";
  }

  /** A bound below 2^64 has at most 20 digits, far below what `int()` refuses. */
  lemma OffsetDigits(n: nat)
    requires n < 2 * OFFSET_LIMIT
    ensures |NatToString(n)| <= 20 < INT_MAX_STR_DIGITS
  {
    assert Pow10(20) == 100_000_000_000_000_000_000 by {
      assert Pow10(5) == 100_000;
      assert Pow10(10) == 10_000_000_000;
      assert Pow10(15) == 1_000_000_000_000_000;
    }
    NatToStringLength(n, 20);
  }

  /**
   * `bytes=a-b` is parsed back to a and b unless one of them has too many digits for
   * `int()` (a 400); then the bytes are served or `seek`/`read` refuse them.
   */
  lemma ClosedRangeParsed(a: nat, b: nat, fileSize: nat)
    ensures Video(true, Some("bytes=" + NatToString(a) + "-" + NatToString(b)), fileSize)
         == if |NatToString(a)| <= INT_MAX_STR_DIGITS && |NatToString(b)| <= INT_MAX_STR_DIGITS
            then Served(a, b, fileSize) else BadRequest
  {
    var sa, sb := NatToString(a), NatToString(b);
    var header := "bytes=" + sa + "-" + sb;
    DigitPartsSplit(sa, sb);
    NatToStringRoundTrip(a);
    NatToStringRoundTrip(b);
    assert Video(true, Some(header), fileSize) == BoundsAnswer(sa, sb, fileSize);
    if |sa| <= INT_MAX_STR_DIGITS && |sb| <= INT_MAX_STR_DIGITS {
      ClosedAnswer(sa, sb, a, b, fileSize);
    }
  }

  /**
   * `bytes=a-b` gets a 206 for bytes a through b exactly when a is below 2^63 and the
   * length b - a + 1 is at least -1 and below 2^63; with a below 2^63 and b below 2^64
   * every other case is a 500.
   */
  lemma ClosedRangeServed(a: nat, b: nat, fileSize: nat)
    ensures var r := Video(true, Some("bytes=" + NatToString(a) + "-" + NatToString(b)), fileSize);
      && (r.Partial? <==> a < OFFSET_LIMIT && -1 <= b - a + 1 < OFFSET_LIMIT)
      && (r.Partial? ==> r == Partial(a, b, b - a + 1, ContentRange(a, b, fileSize)))
      && (a < OFFSET_LIMIT && b < 2 * OFFSET_LIMIT && !r.Partial? ==> r == ServerError)
  {
    ClosedRangeParsed(a, b, fileSize);
    if a < OFFSET_LIMIT && b < 2 * OFFSET_LIMIT {
      OffsetDigits(a);
      OffsetDigits(b);
    }
  }

  lemma ClosedAnswer(sa: string, sb: string, a: nat, b: nat, fileSize: nat)
    requires '-' !in sa && '-' !in sb && sb != "" && PyInt(sa) == Some(a) && PyInt(sb) == Some(b)
    ensures BoundsAnswer(sa, sb, fileSize) == Served(a, b, fileSize)
  {
  }

  lemma OpenRangeParts(a: nat)
    ensures RangeParts("bytes=" + NatToString(a) + "-") == [NatToString(a), ""]
  {
    var sa := NatToString(a);
    DigitPartsSplit(sa, "");
    assert "bytes=" + sa + "-" == "bytes=" + sa + "-" + "";
  }

  lemma OpenAnswer(sa: string, a: nat, fileSize: nat)
    requires '-' !in sa && PyInt(sa) == Some(a)
    ensures BoundsAnswer(sa, "", fileSize) == Served(a, fileSize - 1, fileSize)
  {
  }

  /** `bytes=a-` runs to the last byte of the file, unless a has too many digits for `int()`. */
  lemma OpenRangeParsed(a: nat, fileSize: nat)
    ensures Video(true, Some("bytes=" + NatToString(a) + "-"), fileSize)
         == if |NatToString(a)| <= INT_MAX_STR_DIGITS then Served(a, fileSize - 1, fileSize) else BadRequest
  {
    var sa := NatToString(a);
    var header := "bytes=" + sa + "-";
    OpenRangeParts(a);
    NatToStringRoundTrip(a);
    assert ParseRange(header, fileSize) == BoundsAnswer(sa, "", fileSize);
    if |sa| <= INT_MAX_STR_DIGITS {
      OpenAnswer(sa, a, fileSize);
    }
  }

  /** The suffix form `bytes=-n`, which RFC 7233 allows, is answered 400. */
  lemma SuffixRangeRejected(n: nat, fileSize: nat)
    ensures Video(true, Some("bytes=-" + NatToString(n)), fileSize) == BadRequest
  {
    var sn := NatToString(n);
    DigitPartsSplit("", sn);
    assert "bytes=" + "" + "-" + sn == "bytes=-" + sn;
    NoDigitRejected("");
  }

  /** The `bytes=` prefix is not required: the header without it is answered alike. */
  lemma PrefixOptional(t: string, fileSize: nat)
    requires t != ""
    ensures Video(true, Some("bytes=" + t), fileSize) == Video(true, Some(t), fileSize)
  {
    var s := "bytes=" + t;
    assert s[..6] == "bytes=" && s[6..] == t;
    assert RemoveAll(s, "bytes=") == RemoveAll(t, "bytes=");
    assert RangeParts(s) == RangeParts(t);
  }

  /**
   * An inverted range `bytes=a-b` with `a > b`, where RFC 7233 would answer 416: a 206
   * with a length of 0 or -1 (the rest of the file) when a - b is 1 or 2, and a 500 from
   * `read` when a - b is 3 or more.
   */
  lemma InvertedRangeAnswer(a: nat, b: nat, fileSize: nat)
    requires a > b
    ensures var r := Video(true, Some("bytes=" + NatToString(a) + "-" + NatToString(b)), fileSize);
      && (StatusCode(r) == 206 <==> a < OFFSET_LIMIT && a - b <= 2)
      && (r.Partial? ==> -1 <= r.length <= 0)
      && (a < OFFSET_LIMIT && a - b >= 3 ==> r == ServerError)
  {
    ClosedRangeServed(a, b, fileSize);
  }

  /**
   * A range whose last byte lies past the end of the file is served as it stands, the
   * announced length exceeding the bytes the file has from `a` on, as long as `seek` and
   * `read` take the start and the length.
   */
  lemma RangePastEndAccepted(a: nat, b: nat, fileSize: nat)
    requires a <= b && b >= fileSize
    ensures var r := Video(true, Some("bytes=" + NatToString(a) + "-" + NatToString(b)), fileSize);
      && (StatusCode(r) == 206 <==> a < OFFSET_LIMIT && b - a + 1 < OFFSET_LIMIT)
      && (r.Partial? ==> r.length > fileSize - a)
  {
    ClosedRangeServed(a, b, fileSize);
  }

  /**
   * On an empty file `bytes=a-` gets a 206 only for a of 0 or 1, with a last byte of -1
   * (written `-1` in `Content-Range`) and a length of 0 or -1; a start of 2 or more gives
   * `read` a length below -1, a 500.
   */
  lemma OpenRangeOnEmptyFile(a: nat)
    ensures var r := Video(true, Some("bytes=" + NatToString(a) + "-"), 0);
      && (StatusCode(r) == 206 <==> a <= 1)
      && (r.Partial? ==> r.byte2 == -1 && -1 <= r.length <= 0)
      && (r.Partial? ==> r.contentRange == ContentRange(a, -1, 0) && IntToString(r.byte2) == "-1")
      && (2 <= a < OFFSET_LIMIT ==> r == ServerError)
  {
    OpenRangeParsed(a, 0);
    if a < OFFSET_LIMIT {
      OffsetDigits(a);
    }
    MinusOneText();
  }

  lemma MinusOneText()
    ensures IntToString(-1) == "-1"
  {
    assert NatToString(1) == "1";
  }
}
