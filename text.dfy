/**
 * The pieces of the C library the engine calls on text: the `<ctype.h>`
 * classes in the "C" locale, `strchr`, `strtol`, `strtoumax` and `%d`/`%PRIu64`
 * decimal printing. A Dafny `string` stands for the characters of a C string
 * before its terminating NUL.
 */
module Text {
  import opened Bits

  /** `isspace` in the "C" locale: space, \t, \n, \v, \f, \r. */
  predicate IsSpace(c: char) {
    c == ' ' || '\t' <= c <= '\r'
  }

  /** `isdigit`. */
  predicate IsDigit(c: char) {
    '0' <= c <= '9'
  }

  /** `islower` in the "C" locale. */
  predicate IsLower(c: char) {
    'a' <= c <= 'z'
  }

  /** `isalpha` in the "C" locale. */
  predicate IsAlpha(c: char) {
    IsLower(c) || 'A' <= c <= 'Z'
  }

  function DigitValue(c: char): (v: nat)
    requires IsDigit(c)
    ensures v < 10
  {
    c as int - '0' as int
  }

  function DigitChar(v: nat): (c: char)
    requires v < 10
    ensures IsDigit(c) && DigitValue(c) == v
  {
    ('0' as int + v) as char
  }

  /** `s` holds the text `w` starting at position `k`. */
  predicate At(s: string, k: nat, w: string) {
    k + |w| <= |s| && s[k..k + |w|] == w
  }

  /** `At`, stated one character at a time. */
  predicate Spelled(s: string, k: nat, w: string)
    decreases |w|
  {
    if |w| == 0 then k <= |s| else k < |s| && s[k] == w[0] && Spelled(s, k + 1, w[1..])
  }

  lemma {:induction false} SpelledAt(s: string, k: nat, w: string)
    ensures Spelled(s, k, w) <==> At(s, k, w)
    decreases |w|
  {
    if |w| > 0 {
      SpelledAt(s, k + 1, w[1..]);
      if k + |w| <= |s| {
        assert s[k..k + |w|] == [s[k]] + s[k + 1..k + |w|];
        assert w == [w[0]] + w[1..];
        if At(s, k, w) {
          assert s[k] == w[0] && s[k + 1..k + |w|] == w[1..];
        }
      }
    }
  }

  /** Text put in front of `t` moves what `t` spells by its length. */
  lemma {:induction false} SpelledShift(p: string, t: string, k: nat, w: string)
    requires Spelled(t, k, w)
    ensures Spelled(p + t, |p| + k, w)
    decreases |w|
  {
    if |w| > 0 {
      SpelledShift(p, t, k + 1, w[1..]);
      assert (p + t)[|p| + k] == t[k];
    }
  }

  /** The end of the run of white space that starts at `k`. */
  function SpaceEnd(s: string, k: nat): (e: nat)
    requires k <= |s|
    ensures k <= e <= |s|
    ensures e < |s| ==> !IsSpace(s[e])
    decreases |s| - k
  {
    if k < |s| && IsSpace(s[k]) then SpaceEnd(s, k + 1) else k
  }

  /** The end of the run of decimal digits that starts at `k`. */
  function DigitEnd(s: string, k: nat): (e: nat)
    requires k <= |s|
    ensures k <= e <= |s|
    ensures e < |s| ==> !IsDigit(s[e])
    ensures e > k ==> IsDigit(s[e - 1])
    decreases |s| - k
  {
    if k < |s| && IsDigit(s[k]) then DigitEnd(s, k + 1) else k
  }

  /** Every character of the run is white space. */
  lemma {:induction false} SpaceRun(s: string, k: nat)
    requires k <= |s|
    ensures forall i :: k <= i < SpaceEnd(s, k) ==> IsSpace(s[i])
    decreases |s| - k
  {
    if k < |s| && IsSpace(s[k]) {
      SpaceRun(s, k + 1);
    }
  }

  /** `strchr(s + k, c)`: the first position at or after `k` that holds `c`. */
  function IndexOf(s: string, k: nat, c: char): (r: Option<nat>)
    requires k <= |s|
    ensures r.Some? ==> k <= r.value < |s| && s[r.value] == c
    decreases |s| - k
  {
    if k == |s| then None
    else if s[k] == c then Some(k)
    else IndexOf(s, k + 1, c)
  }

  /** `strchr` finds the first occurrence: no `c` lies between `k` and what it returns,
    * and when it returns nothing there is no `c` at or after `k`. */
  lemma {:induction false} IndexOfFirst(s: string, k: nat, c: char)
    requires k <= |s|
    ensures IndexOf(s, k, c).Some? ==> forall i :: k <= i < IndexOf(s, k, c).value ==> s[i] != c
    ensures IndexOf(s, k, c).None? ==> forall i :: k <= i < |s| ==> s[i] != c
    decreases |s| - k
  {
    if k < |s| && s[k] != c {
      IndexOfFirst(s, k + 1, c);
    }
  }

  datatype Option<T> = None | Some(value: T)

  /** The items a reading loop takes from a text, one at a time, in order. */
  datatype Reads<T> = End | Item(value: T, rest: Reads<T>)

  /** The values read, in the order they were read. */
  function Values<T>(r: Reads<T>): (v: seq<T>)
    ensures r.Item? ==> |v| >= 1 && v[0] == r.value
  {
    match r
    case End => []
    case Item(x, rest) => [x] + Values(rest)
  }

  /** The reads that yield the values `v`, in order. */
  function ReadsOf<T>(v: seq<T>): Reads<T>
    decreases |v|
  {
    if |v| == 0 then End else Item(v[0], ReadsOf(v[1..]))
  }

  lemma {:induction false} ValuesOf<T>(v: seq<T>)
    ensures Values(ReadsOf(v)) == v
    decreases |v|
  {
    if |v| > 0 {
      ValuesOf(v[1..]);
      assert v == [v[0]] + v[1..];
    }
  }

  /** The items of `s` between commas, in order; the text without commas is one item. */
  function Split(s: string): (items: seq<string>)
    ensures |items| >= 1
    ensures forall k :: 0 <= k < |items| ==> ',' !in items[k]
    decreases |s|
  {
    IndexOfFirst(s, 0, ',');
    match IndexOf(s, 0, ',')
    case None => [s]
    case Some(i) => [s[..i]] + Split(s[i + 1..])
  }

  /** The items of a comma-separated text joined back with commas. */
  function JoinCommas(items: seq<string>): string
    requires |items| >= 1
  {
    if |items| == 1 then items[0] else items[0] + "," + JoinCommas(items[1..])
  }

  /** Splitting at the commas and joining again restores the text. */
  lemma {:induction false} SplitJoin(s: string)
    ensures JoinCommas(Split(s)) == s
    decreases |s|
  {
    match IndexOf(s, 0, ',')
    case None =>
    case Some(i) =>
      SplitJoin(s[i + 1..]);
      assert Split(s)[1..] == Split(s[i + 1..]);
      assert s == s[..i] + "," + s[i + 1..];
  }

  /** The items from `k` on, when the first comma from `k` is at `i`. */
  lemma SplitAt(s: string, k: nat, i: nat)
    requires k <= |s| && IndexOf(s, k, ',') == Some(i)
    ensures Split(s[k..]) == [s[k..i]] + Split(s[i + 1..])
  {
    IndexOfShift(s, k, 0, ',');
    var t := s[k..];
    assert IndexOf(t, 0, ',') == Some(i - k);
    assert t[..i - k] == s[k..i] && t[i - k + 1..] == s[i + 1..];
  }

  /** The text from `k` on is one item when no comma follows `k`. */
  lemma SplitRest(s: string, k: nat)
    requires k <= |s| && IndexOf(s, k, ',') == None
    ensures Split(s[k..]) == [s[k..]]
  {
    IndexOfShift(s, k, 0, ',');
  }

  /** The last item is empty exactly when the text is empty or ends in a comma. */
  lemma {:induction false} SplitLast(s: string)
    ensures Split(s)[|Split(s)| - 1] == "" <==> s == "" || s[|s| - 1] == ','
    decreases |s|
  {
    IndexOfFirst(s, 0, ',');
    match IndexOf(s, 0, ',')
    case None =>
      if |s| > 0 {
        assert s[|s| - 1] != ',';
      }
    case Some(i) =>
      var t := s[i + 1..];
      SplitLast(t);
      assert Split(s)[|Split(s)| - 1] == Split(t)[|Split(t)| - 1];
      if |t| > 0 {
        assert t[|t| - 1] == s[|s| - 1];
      }
  }

  /** The value of a run of decimal digits. */
  function DigitsValue(d: string): nat
    requires forall i :: 0 <= i < |d| ==> IsDigit(d[i])
  {
    if |d| == 0 then 0 else 10 * DigitsValue(d[..|d| - 1]) + DigitValue(d[|d| - 1])
  }

  /** The value of the digits of `s` in `[d, e)`, read left to right as `strtol`
    * accumulates them. */
  function Number(s: string, d: nat, e: nat): nat
    requires d <= e <= |s|
    decreases e - d
  {
    if e == d then 0
    else 10 * Number(s, d, e - 1) + (if IsDigit(s[e - 1]) then DigitValue(s[e - 1]) else 0)
  }

  /** Digits `w` found in `s` at `d` have the value of `w`. */
  lemma {:induction false} NumberAt(s: string, d: nat, w: string)
    requires At(s, d, w)
    requires forall i :: 0 <= i < |w| ==> IsDigit(w[i])
    ensures Number(s, d, d + |w|) == DigitsValue(w)
    decreases |w|
  {
    if |w| > 0 {
      var v := w[..|w| - 1];
      assert s[d..d + |v|] == s[d..d + |w|][..|v|];
      NumberAt(s, d, v);
      assert s[d + |w| - 1] == w[|w| - 1];
    }
  }

  /** `printf("%d")`/`printf("%" PRIu64)` of a non-negative value. */
  function Decimal(x: nat): (d: string)
    ensures |d| >= 1
    ensures forall i :: 0 <= i < |d| ==> IsDigit(d[i])
    ensures DigitsValue(d) == x
  {
    if x < 10 then [DigitChar(x)]
    else
      var d := Decimal(x / 10) + [DigitChar(x % 10)];
      assert d[..|d| - 1] == Decimal(x / 10);
      d
  }

  /** What `strtol`/`strtoumax` read starting at `k`: leading white space, an optional
    * sign, then decimal digits. `end` is where the scan stops; when there is no digit
    * nothing is converted and `end == k`. */
  datatype Scan = Scan(negative: bool, magnitude: nat, end: nat)

  function ScanInteger(s: string, k: nat): (r: Scan)
    requires k <= |s|
    ensures k <= r.end <= |s|
    ensures r.end == k ==> r.magnitude == 0 && !r.negative
    ensures r.end > k ==> IsDigit(s[r.end - 1]) && (r.end < |s| ==> !IsDigit(s[r.end]))
  {
    var j := SpaceEnd(s, k);
    var signed := j < |s| && (s[j] == '+' || s[j] == '-');
    var d := if signed then j + 1 else j;
    var e := DigitEnd(s, d);
    if e == d then Scan(false, 0, k)
    else Scan(signed && s[j] == '-', Number(s, d, e), e)
  }

  /** `strchr` returns the comma at `i` when none lies between `e` and `i`. */
  lemma {:induction false} IndexOfAt(s: string, e: nat, i: nat, c: char)
    requires e <= i < |s| && s[i] == c
    requires forall x :: e <= x < i ==> s[x] != c
    ensures IndexOf(s, e, c) == Some(i)
    decreases i - e
  {
    if e < i {
      IndexOfAt(s, e + 1, i, c);
    }
  }

  /** `strchr` returns nothing when no `c` lies at or after `k`. */
  lemma {:induction false} IndexOfNone(s: string, k: nat, c: char)
    requires k <= |s|
    requires forall x :: k <= x < |s| ==> s[x] != c
    ensures IndexOf(s, k, c) == None
    decreases |s| - k
  {
    if k < |s| {
      IndexOfNone(s, k + 1, c);
    }
  }

  /** Cutting the first `k` characters off moves what `strchr` finds by `k`. */
  lemma {:induction false} IndexOfShift(s: string, k: nat, j: nat, c: char)
    requires k + j <= |s|
    ensures IndexOf(s[k..], j, c).Some? <==> IndexOf(s, k + j, c).Some?
    ensures IndexOf(s, k + j, c).Some? ==> IndexOf(s[k..], j, c).value + k == IndexOf(s, k + j, c).value
    decreases |s| - k - j
  {
    if k + j < |s| && s[k + j] != c {
      IndexOfShift(s, k, j + 1, c);
    }
  }

  lemma {:induction false} SpaceEndShift(s: string, k: nat, j: nat)
    requires k + j <= |s|
    ensures SpaceEnd(s[k..], j) + k == SpaceEnd(s, k + j)
    decreases |s| - k - j
  {
    if k + j < |s| && IsSpace(s[k + j]) {
      SpaceEndShift(s, k, j + 1);
    }
  }

  lemma {:induction false} DigitEndShift(s: string, k: nat, j: nat)
    requires k + j <= |s|
    ensures DigitEnd(s[k..], j) + k == DigitEnd(s, k + j)
    decreases |s| - k - j
  {
    if k + j < |s| && IsDigit(s[k + j]) {
      DigitEndShift(s, k, j + 1);
    }
  }

  lemma {:induction false} NumberShift(s: string, k: nat, d: nat, e: nat)
    requires d <= e && k + e <= |s|
    ensures Number(s[k..], d, e) == Number(s, k + d, k + e)
    decreases e - d
  {
    if d < e {
      NumberShift(s, k, d, e - 1);
    }
  }

  /** A scan depends on the text from where it starts: cutting off the first `k`
    * characters reads the same value and moves the end by `k`. */
  lemma ScanShift(s: string, k: nat, j: nat)
    requires k + j <= |s|
    ensures ScanInteger(s[k..], j).negative == ScanInteger(s, k + j).negative
    ensures ScanInteger(s[k..], j).magnitude == ScanInteger(s, k + j).magnitude
    ensures ScanInteger(s[k..], j).end + k == ScanInteger(s, k + j).end
  {
    SpaceEndShift(s, k, j);
    var b := SpaceEnd(s, k + j);
    var d := if b < |s| && (s[b] == '+' || s[b] == '-') then b + 1 else b;
    DigitEndShift(s, k, d - k);
    NumberShift(s, k, d - k, DigitEnd(s, d) - k);
  }

  lemma {:induction false} SpaceEndPrefix(s: string, i: nat, k: nat)
    requires k <= i < |s| && !IsSpace(s[i])
    ensures SpaceEnd(s[..i], k) == SpaceEnd(s, k)
    decreases i - k
  {
    if k < i && IsSpace(s[k]) {
      SpaceEndPrefix(s, i, k + 1);
    }
  }

  lemma {:induction false} DigitEndPrefix(s: string, i: nat, k: nat)
    requires k <= i < |s| && !IsDigit(s[i])
    ensures DigitEnd(s[..i], k) == DigitEnd(s, k)
    decreases i - k
  {
    if k < i && IsDigit(s[k]) {
      DigitEndPrefix(s, i, k + 1);
    }
  }

  lemma {:induction false} NumberPrefix(s: string, i: nat, d: nat, e: nat)
    requires d <= e <= i <= |s|
    ensures Number(s[..i], d, e) == Number(s, d, e)
    decreases e - d
  {
    if d < e {
      NumberPrefix(s, i, d, e - 1);
    }
  }

  /** A scan stops at a character that is neither white space, a sign nor a digit,
    * so the text after it does not change what is read. */
  lemma ScanPrefix(s: string, i: nat, k: nat)
    requires k <= i < |s| && !IsSpace(s[i]) && !IsDigit(s[i]) && s[i] != '+' && s[i] != '-'
    ensures ScanInteger(s[..i], k) == ScanInteger(s, k)
  {
    SpaceEndPrefix(s, i, k);
    var b := SpaceEnd(s, k);
    var d := if b < |s| && (s[b] == '+' || s[b] == '-') then b + 1 else b;
    DigitEndPrefix(s, i, d);
    NumberPrefix(s, i, d, DigitEnd(s, d));
  }

  const LONG_MAX: int := 0x7FFF_FFFF_FFFF_FFFF
  const UINTMAX_MAX: nat := WORD - 1

  /** The value `strtol(s + k, &end, 10)` returns: out-of-range results clamp to
    * `LONG_MIN`/`LONG_MAX`. */
  function Strtol(s: string, k: nat): (v: int)
    requires k <= |s|
    ensures -LONG_MAX - 1 <= v <= LONG_MAX
    ensures v == 0 <==> ScanInteger(s, k).magnitude == 0
  {
    var r := ScanInteger(s, k);
    if r.negative then (if r.magnitude > LONG_MAX + 1 then -LONG_MAX - 1 else -(r.magnitude as int))
    else if r.magnitude > LONG_MAX then LONG_MAX else r.magnitude
  }

  /** The `uintmax_t` value `strtoumax` makes of a scan: a magnitude above `UINTMAX_MAX`
    * clamps to it, and a leading minus negates modulo 2^64. */
  function Unsigned(r: Scan): uint64 {
    if r.magnitude > UINTMAX_MAX then UINTMAX_MAX
    else if r.negative then (WORD - r.magnitude) % WORD
    else r.magnitude
  }

  /** The value `strtoumax(s + k, &end, 10)` returns. */
  function Strtoumax(s: string, k: nat): uint64
    requires k <= |s|
  {
    Unsigned(ScanInteger(s, k))
  }

  /** A magnitude in range without a minus sign is returned as it is; one out of range
    * clamps to `UINTMAX_MAX`; nothing converted gives 0. */
  lemma StrtoumaxValue(s: string, k: nat)
    requires k <= |s|
    ensures var r := ScanInteger(s, k);
      && (r.magnitude <= UINTMAX_MAX && !r.negative ==> Strtoumax(s, k) == r.magnitude)
      && (r.magnitude > UINTMAX_MAX ==> Strtoumax(s, k) == UINTMAX_MAX)
      && (r.end == k ==> Strtoumax(s, k) == 0)
  {
  }

  /** A run of white space ending before a non-space (or the end) is the whole run. */
  lemma {:induction false} SpaceAll(s: string, k: nat, e: nat)
    requires k <= e <= |s|
    requires forall i :: k <= i < e ==> IsSpace(s[i])
    requires e < |s| ==> !IsSpace(s[e])
    ensures SpaceEnd(s, k) == e
    decreases e - k
  {
    if k < e {
      SpaceAll(s, k + 1, e);
    }
  }

  /** A run of digits ending before a non-digit (or the end) is the whole run. */
  lemma {:induction false} DigitAll(s: string, k: nat, e: nat)
    requires k <= e <= |s|
    requires forall i :: k <= i < e ==> IsDigit(s[i])
    requires e < |s| ==> !IsDigit(s[e])
    ensures DigitEnd(s, k) == e
    decreases e - k
  {
    if k < e {
      DigitAll(s, k + 1, e);
    }
  }

  /** A decimal numeral, after optional white space and followed by a non-digit or the
    * end, scans back to its value. */
  lemma ScanDecimal(s: string, k: nat, j: nat, x: nat)
    requires k <= j && At(s, j, Decimal(x))
    requires forall i :: k <= i < j ==> IsSpace(s[i])
    requires j + |Decimal(x)| < |s| ==> !IsDigit(s[j + |Decimal(x)|])
    ensures ScanInteger(s, k) == Scan(false, x, j + |Decimal(x)|)
  {
    var d := Decimal(x);
    assert s[j] == d[0];
    SpaceAll(s, k, j);
    forall i | j <= i < j + |d|
      ensures IsDigit(s[i])
    {
      assert s[i] == d[i - j];
    }
    DigitAll(s, j, j + |d|);
    NumberAt(s, j, d);
  }
}
