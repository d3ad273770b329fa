/** The byte-level pieces of the transfer header: `name|size\n`.

    Names, sizes and paths travel as UTF-8 byte strings; the model works on
    the bytes directly.  The sender renders the size with `str()`, the
    receiver strips the line, splits it on `|` and reads the size with
    `int()`.  This module gives each of those steps a function and proves
    that the receiver's reading undoes the sender's writing. */
module Wire {

  type byte = b: int | 0 <= b < 256

  datatype Option<T> = None | Some(value: T)

  const Newline: byte := 10
  const Bar: byte := 124
  const Minus: byte := 45
  const Zero: byte := 48

  /** ASCII bytes that Python's `str.isspace` accepts: `\t \n \v \f \r`,
      the four separators 0x1C-0x1F, and the space. */
  predicate IsSpace(b: byte) {
    9 <= b <= 13 || 28 <= b <= 32
  }

  predicate IsDigit(b: byte) {
    Zero <= b <= Zero + 9
  }

  predicate AllDigits(s: seq<byte>) {
    forall k :: 0 <= k < |s| ==> IsDigit(s[k])
  }

  function Min(a: int, b: int): int {
    if a <= b then a else b
  }

  /** The first index at or after `i` where `s` holds `b`, or `|s|` when
      there is none. */
  function Find(s: seq<byte>, b: byte, i: nat): (j: nat)
    requires i <= |s|
    ensures i <= j <= |s|
    ensures j < |s| ==> s[j] == b
    decreases |s| - i
  {
    if i == |s| || s[i] == b then i else Find(s, b, i + 1)
  }

  /** No occurrence of `b` lies between `i` and `Find(s, b, i)`. */
  lemma {:induction false} FindSpec(s: seq<byte>, b: byte, i: nat)
    requires i <= |s|
    ensures forall k :: i <= k < Find(s, b, i) ==> s[k] != b
    decreases |s| - i
  {
    if i < |s| && s[i] != b {
      FindSpec(s, b, i + 1);
    }
  }

  /** An occurrence of `b` with none before it is what `Find` returns. */
  lemma FindFirst(s: seq<byte>, b: byte, j: nat)
    requires j < |s| && s[j] == b
    requires forall k :: 0 <= k < j ==> s[k] != b
    ensures Find(s, b, 0) == j
  {
    FindSpec(s, b, 0);
  }

  /** `Find` runs off the end exactly when `b` does not occur after `i`. */
  lemma FindNone(s: seq<byte>, b: byte, i: nat)
    requires i <= |s|
    ensures Find(s, b, i) == |s| <==> b !in s[i..]
  {
    FindSpec(s, b, i);
    if Find(s, b, i) < |s| {
      assert s[i..][Find(s, b, i) - i] == b;
    }
  }

  // ---------------------------------------------------------------------
  // Sizes: `str(n)` on the sending side, `int(field)` on the receiving side
  // ---------------------------------------------------------------------

  /** `str(n)` for a non-negative integer: its canonical decimal digits. */
  function Decimal(n: nat): (r: seq<byte>)
    ensures 1 <= |r| && AllDigits(r)
    ensures r[0] == Zero ==> n == 0
  {
    if n < 10 then [Zero + n] else Decimal(n / 10) + [Zero + n % 10]
  }

  /** The value of a run of decimal digits; leading zeros are allowed. */
  function DigitsValue(s: seq<byte>): int {
    if s == [] then 0 else DigitsValue(s[..|s| - 1]) * 10 + (s[|s| - 1] - Zero)
  }

  /** `int(field)`, restricted to an optional `-` followed by at least one
      ASCII digit; anything else raises `ValueError`, here `None`. */
  function ParseInt(s: seq<byte>): Option<int> {
    if |s| > 0 && s[0] == Minus then
      if |s| > 1 && AllDigits(s[1..]) then Some(0 - DigitsValue(s[1..])) else None
    else if |s| > 0 && AllDigits(s) then Some(DigitsValue(s))
    else None
  }

  /** Digits are worth at least nothing: `int()` of a digit string is never
      negative, and it is negative only after a `-`. */
  lemma {:induction false} DigitsNonNegative(s: seq<byte>)
    requires AllDigits(s)
    ensures DigitsValue(s) >= 0
  {
    if s != [] {
      DigitsNonNegative(s[..|s| - 1]);
    }
  }

  lemma {:induction false} DecimalValue(n: nat)
    ensures DigitsValue(Decimal(n)) == n
  {
    if n >= 10 {
      var d := Decimal(n);
      assert d[..|d| - 1] == Decimal(n / 10);
      DecimalValue(n / 10);
    }
  }

  /** Reading back what `str()` wrote gives the same size. */
  lemma ParseDecimal(n: nat)
    ensures ParseInt(Decimal(n)) == Some(n)
  {
    DecimalValue(n);
  }

  /** `int()` accepts a leading minus: `-` followed by `str(n)` reads as `-n`. */
  lemma ParseNegated(n: nat)
    ensures ParseInt([Minus] + Decimal(n)) == Some(0 - n)
  {
    var s := [Minus] + Decimal(n);
    assert s[1..] == Decimal(n);
    DecimalValue(n);
  }

  /** A field that `int()` accepts is a sign and digits, and it yields a
      negative number only when it starts with `-`. */
  lemma ParseIntSpec(s: seq<byte>)
    ensures ParseInt(s).Some? <==>
            (|s| > 0 && AllDigits(s)) || (|s| > 1 && s[0] == Minus && AllDigits(s[1..]))
    ensures ParseInt(s).Some? && ParseInt(s).value < 0 ==> s[0] == Minus
  {
    if |s| > 0 && s[0] == Minus {
      assert !IsDigit(s[0]);
      if |s| > 1 && AllDigits(s[1..]) {
        DigitsNonNegative(s[1..]);
      }
    } else if |s| > 0 && AllDigits(s) {
      DigitsNonNegative(s);
    }
  }

  // ---------------------------------------------------------------------
  // `str.strip()`
  // ---------------------------------------------------------------------

  /** The first index at or after `i` that does not hold whitespace, or
      `|s|`. */
  function SkipSpace(s: seq<byte>, i: nat): (j: nat)
    requires i <= |s|
    ensures i <= j <= |s|
    decreases |s| - i
  {
    if i < |s| && IsSpace(s[i]) then SkipSpace(s, i + 1) else i
  }

  /** The end of `s[lo..hi]` once its trailing whitespace is dropped. */
  function SkipSpaceBack(s: seq<byte>, lo: nat, hi: nat): (j: nat)
    requires lo <= hi <= |s|
    ensures lo <= j <= hi
  {
    if lo < hi && IsSpace(s[hi - 1]) then SkipSpaceBack(s, lo, hi - 1) else hi
  }

  /** `str.strip()` with no argument. */
  function Strip(s: seq<byte>): seq<byte> {
    var lo := SkipSpace(s, 0);
    s[lo..SkipSpaceBack(s, lo, |s|)]
  }

  lemma {:induction false} SkipSpaceSpec(s: seq<byte>, i: nat)
    requires i <= |s|
    ensures var j := SkipSpace(s, i);
            (j == |s| || !IsSpace(s[j])) && forall k :: i <= k < j ==> IsSpace(s[k])
    decreases |s| - i
  {
    if i < |s| && IsSpace(s[i]) {
      SkipSpaceSpec(s, i + 1);
    }
  }

  lemma {:induction false} SkipSpaceBackSpec(s: seq<byte>, lo: nat, hi: nat)
    requires lo <= hi <= |s|
    ensures var j := SkipSpaceBack(s, lo, hi);
            (j == lo || !IsSpace(s[j - 1])) && forall k :: j <= k < hi ==> IsSpace(s[k])
  {
    if lo < hi && IsSpace(s[hi - 1]) {
      SkipSpaceBackSpec(s, lo, hi - 1);
    }
  }

  /** What `strip()` leaves is a slice of the input with no whitespace at
      either end; it is empty exactly when the input was all whitespace, and
      only whitespace was dropped on either side. */
  lemma StripSpec(s: seq<byte>)
    ensures var r := Strip(s);
            (r == [] || (!IsSpace(r[0]) && !IsSpace(r[|r| - 1]))) &&
            (r == [] <==> forall k :: 0 <= k < |s| ==> IsSpace(s[k])) &&
            exists lo, hi :: 0 <= lo <= hi <= |s| && r == s[lo..hi] &&
                             (forall k :: 0 <= k < lo ==> IsSpace(s[k])) &&
                             (forall k :: hi <= k < |s| ==> IsSpace(s[k]))
  {
    var lo := SkipSpace(s, 0);
    var hi := SkipSpaceBack(s, lo, |s|);
    SkipSpaceSpec(s, 0);
    SkipSpaceBackSpec(s, lo, |s|);
    if lo < |s| {
      assert lo < hi;
    }
    assert Strip(s) == s[lo..hi];
  }

  /** A line with no whitespace at either end comes back from `strip()`
      without its terminating newline. */
  lemma StripLine(t: seq<byte>)
    requires t != [] && !IsSpace(t[0]) && !IsSpace(t[|t| - 1])
    ensures Strip(t + [Newline]) == t
  {
    var s := t + [Newline];
    assert SkipSpace(s, 0) == 0;
    assert SkipSpaceBack(s, 0, |s|) == SkipSpaceBack(s, 0, |t|) == |t|;
    assert s[0..|t|] == t;
  }

  // ---------------------------------------------------------------------
  // `str.split('|')`
  // ---------------------------------------------------------------------

  /** The fields glued back together with the separator between them. */
  function JoinFields(fields: seq<seq<byte>>, d: byte): seq<byte>
    requires |fields| >= 1
  {
    if |fields| == 1 then fields[0] else fields[0] + [d] + JoinFields(fields[1..], d)
  }

  /** `s.split(d)`: the fields between the separators, none holding the
      separator, which glue back to exactly `s`. */
  function Split(s: seq<byte>, d: byte): (r: seq<seq<byte>>)
    ensures |r| >= 1 && JoinFields(r, d) == s
    ensures forall k :: 0 <= k < |r| ==> d !in r[k]
    decreases |s|
  {
    var i := Find(s, d, 0);
    FindNone(s, d, 0);
    if i == |s| then [s]
    else
      FindSpec(s, d, 0);
      var r := [s[..i]] + Split(s[i + 1..], d);
      assert r[1..] == Split(s[i + 1..], d);
      assert s == s[..i] + [d] + s[i + 1..];
      r
  }

  /** `a, b = s.split(d)` succeeds exactly when `d` occurs once in `s`, and
      then the two fields are what lies before and after it. */
  lemma SplitTwo(s: seq<byte>, d: byte)
    ensures var i := Find(s, d, 0);
            (|Split(s, d)| == 2 <==> i < |s| && d !in s[i + 1..]) &&
            (|Split(s, d)| == 2 ==> Split(s, d) == [s[..i], s[i + 1..]])
  {
    var i := Find(s, d, 0);
    if i < |s| {
      var u := s[i + 1..];
      FindNone(u, d, 0);
      assert u[0..] == u;
      assert Split(s, d) == [s[..i]] + Split(u, d);
    }
  }

  // ---------------------------------------------------------------------
  // The header line
  // ---------------------------------------------------------------------

  /** What `handle_client` makes of one header line: an empty line after
      stripping, a line that fails `split`/`int`, or a file announcement. */
  datatype Header = Blank | Malformed | Announce(name: seq<byte>, size: int)

  /** The sender's `f"{name}|{size}\n"`. */
  function EncodeHeader(name: seq<byte>, size: nat): seq<byte> {
    name + [Bar] + Decimal(size) + [Newline]
  }

  /** The receiver's `strip()`, `split('|')` and `int()` on one line: the
      stripped line must hold exactly one `|`, and what follows it must be
      an integer. */
  function ParseHeader(line: seq<byte>): Header {
    var t := Strip(line);
    if t == [] then Blank
    else
      var i := Find(t, Bar, 0);
      if i == |t| || Find(t, Bar, i + 1) < |t| then Malformed
      else
        match ParseInt(t[i + 1..])
        case None => Malformed
        case Some(n) => Announce(t[..i], n)
  }

  /** `ParseHeader` is the source's statement sequence: strip, give up on an
      empty line, unpack `split('|')` into two fields, apply `int()` to the
      second. */
  lemma ParseHeaderIsSplit(line: seq<byte>)
    ensures var t := Strip(line);
            ParseHeader(line) ==
              if t == [] then Blank
              else
                var fields := Split(t, Bar);
                if |fields| != 2 then Malformed
                else
                  match ParseInt(fields[1])
                  case None => Malformed
                  case Some(n) => Announce(fields[0], n)
  {
    var t := Strip(line);
    if t != [] {
      SplitTwo(t, Bar);
      var i := Find(t, Bar, 0);
      if i < |t| {
        FindNone(t, Bar, i + 1);
      }
    }
  }

  /** A line reads as blank exactly when it is all whitespace; an announced
      name holds no `|` and does not start with whitespace; a line without a
      `|` never announces a file. */
  lemma ParseHeaderSpec(line: seq<byte>)
    ensures var h := ParseHeader(line);
            (h.Blank? <==> forall k :: 0 <= k < |line| ==> IsSpace(line[k])) &&
            (h.Announce? ==> Bar !in h.name && (h.name == [] || !IsSpace(h.name[0]))) &&
            (Bar !in line ==> !h.Announce?)
  {
    var t := Strip(line);
    StripSpec(line);
    if t != [] {
      var i := Find(t, Bar, 0);
      FindSpec(t, Bar, 0);
      if i < |t| {
        assert t[i] in t;
      }
    }
  }

  /** A name the header can carry unchanged: no separator, no newline, and
      no whitespace that `strip()` would remove. */
  predicate Sendable(name: seq<byte>) {
    Bar !in name && Newline !in name &&
    (name == [] || (!IsSpace(name[0]) && !IsSpace(name[|name| - 1])))
  }

  /** The receiver reads back exactly the name and size the sender wrote. */
  lemma HeaderRoundTrip(name: seq<byte>, size: nat)
    requires Sendable(name)
    ensures ParseHeader(EncodeHeader(name, size)) == Announce(name, size)
  {
    var digits := Decimal(size);
    var t := name + [Bar] + digits;
    assert EncodeHeader(name, size) == t + [Newline];
    assert t[0] == if name == [] then Bar else name[0];
    assert t[|t| - 1] == digits[|digits| - 1];
    StripLine(t);
    FindFirst(t, Bar, |name|);
    assert !IsDigit(Bar);
    assert t[|name| + 1..] == digits;
    assert Bar !in digits;
    FindNone(t, Bar, |name| + 1);
    assert t[..|name|] == name;
    ParseDecimal(size);
  }

  /** The header's only newline is its last byte, so the receiver's
      byte-by-byte scan stops exactly at the end of the header. */
  lemma HeaderIsLine(name: seq<byte>, size: nat)
    requires Newline !in name
    ensures var h := EncodeHeader(name, size);
            h[|h| - 1] == Newline && forall k :: 0 <= k < |h| - 1 ==> h[k] != Newline
  {
    var digits := Decimal(size);
    var h := EncodeHeader(name, size);
    forall k | 0 <= k < |h| - 1
      ensures h[k] != Newline
    {
      if k < |name| {
        assert h[k] == name[k];
      } else if k > |name| {
        assert h[k] == digits[k - |name| - 1];
      }
    }
  }

  /** The frame the sender puts on the wire for one file. */
  function Frame(name: seq<byte>, content: seq<byte>): seq<byte> {
    EncodeHeader(name, |content|) + content
  }
}
