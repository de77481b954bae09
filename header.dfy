/** The 10-byte length header that precedes a request (start.py builds it,
    tcp_module.py reads it): the payload length in decimal ASCII,
    left-justified and padded with spaces. */
module Header {
  import opened Bytes
  import opened Wrappers

  /** Width of the header field on both sides of the connection. */
  const HEADER_SIZE: nat := 10

  const SPACE: byte := 32
  const PLUS: byte := 43
  const MINUS: byte := 45
  const ZERO: byte := 48
  const UNDERSCORE: byte := 95

  predicate IsDigit(b: byte)
  {
    ZERO <= b <= ZERO + 9
  }

  /** The ASCII characters that Python's `int()` skips around a literal:
      \t \n \v \f \r and the space. The separators \x1c to \x1f, which
      `str.strip()` would remove, are not among them. */
  predicate IsSpace(b: byte)
  {
    9 <= b <= 13 || b == SPACE
  }

  function Pow10(k: nat): (p: nat)
    ensures p >= 1
  {
    if k == 0 then 1 else 10 * Pow10(k - 1)
  }

  // ---------------------------------------------------------------------------
  // Encoding: bytes(str(f"{n:<10}"), 'utf-8')
  // ---------------------------------------------------------------------------

  /** `str(n)` for a natural number: decimal digits, most significant first,
      with no leading zero except for 0 itself. */
  function Digits(n: nat): (ds: seq<byte>)
    ensures |ds| >= 1
    ensures forall i | 0 <= i < |ds| :: IsDigit(ds[i])
    ensures ds[0] == ZERO <==> n == 0
  {
    if n < 10 then [ZERO + n] else Digits(n / 10) + [ZERO + n % 10]
  }

  function DigitValue(b: byte): nat
  {
    if IsDigit(b) then b - ZERO else 0
  }

  /** The number a sequence of decimal digits denotes. */
  function DigitsValue(ds: seq<byte>): nat
  {
    if ds == [] then 0 else 10 * DigitsValue(ds[..|ds| - 1]) + DigitValue(ds[|ds| - 1])
  }

  /** Reading back the digits of `str(n)` gives `n`. */
  lemma {:induction false} DigitsRoundTrip(n: nat)
    ensures DigitsValue(Digits(n)) == n
  {
    if n >= 10 {
      var ds := Digits(n);
      assert ds[..|ds| - 1] == Digits(n / 10);
      DigitsRoundTrip(n / 10);
    }
  }

  /** `str(n)` fits in `k` characters exactly when `n < 10^k`. */
  lemma {:induction false} DigitsCount(n: nat, k: nat)
    requires k >= 1
    ensures |Digits(n)| <= k <==> n < Pow10(k)
  {
    assert Pow10(k) >= 10;
    if n >= 10 && k > 1 {
      DigitsCount(n / 10, k - 1);
    }
  }

  /** `k` digits never denote a number of `k + 1` digits or more. */
  lemma {:induction false} DigitsValueBound(ds: seq<byte>)
    ensures DigitsValue(ds) < Pow10(|ds|)
  {
    if ds != [] {
      DigitsValueBound(ds[..|ds| - 1]);
    }
  }

  function Spaces(k: nat): (s: seq<byte>)
    ensures |s| == k
    ensures forall i | 0 <= i < k :: s[i] == SPACE
  {
    seq(k, _ => SPACE)
  }

  /** The header start.py sends for a payload of `n` bytes: `str(n)`
      left-justified in a field of HEADER_SIZE characters. Python's
      format never truncates, so a length of more than ten digits yields a
      longer header. */
  function EncodeHeader(n: nat): (h: seq<byte>)
    ensures |h| == HEADER_SIZE <==> n < Pow10(HEADER_SIZE)
    ensures |h| == if |Digits(n)| < HEADER_SIZE then HEADER_SIZE else |Digits(n)|
    ensures h[..|Digits(n)|] == Digits(n)
    ensures forall i | |Digits(n)| <= i < |h| :: h[i] == SPACE
  {
    DigitsCount(n, HEADER_SIZE);
    var ds := Digits(n);
    if |ds| < HEADER_SIZE then ds + Spaces(HEADER_SIZE - |ds|) else ds
  }

  // ---------------------------------------------------------------------------
  // Decoding: int(b_msg_len.decode("utf-8"))
  // ---------------------------------------------------------------------------

  /** How many whitespace bytes a sequence starts with. */
  function LeadingSpaces(s: seq<byte>): (k: nat)
    ensures k <= |s|
  {
    if s != [] && IsSpace(s[0]) then 1 + LeadingSpaces(s[1..]) else 0
  }

  /** How many whitespace bytes a sequence ends with. */
  function TrailingSpaces(s: seq<byte>): (k: nat)
    ensures k <= |s|
  {
    if s != [] && IsSpace(s[|s| - 1]) then 1 + TrailingSpaces(s[..|s| - 1]) else 0
  }

  /** LeadingSpaces counts whitespace only, and all of it up to the first
      other byte. */
  lemma {:induction false} LeadingSpacesSpec(s: seq<byte>)
    ensures forall i | 0 <= i < LeadingSpaces(s) :: IsSpace(s[i])
    ensures LeadingSpaces(s) < |s| ==> !IsSpace(s[LeadingSpaces(s)])
  {
    if s != [] && IsSpace(s[0]) {
      LeadingSpacesSpec(s[1..]);
      forall i | 1 <= i < LeadingSpaces(s) ensures IsSpace(s[i]) {
        assert s[i] == s[1..][i - 1];
      }
    }
  }

  /** TrailingSpaces counts whitespace only, and all of it after the last
      other byte. */
  lemma {:induction false} TrailingSpacesSpec(s: seq<byte>)
    ensures forall i | |s| - TrailingSpaces(s) <= i < |s| :: IsSpace(s[i])
    ensures TrailingSpaces(s) < |s| ==> !IsSpace(s[|s| - 1 - TrailingSpaces(s)])
  {
    if s != [] && IsSpace(s[|s| - 1]) {
      var t := s[..|s| - 1];
      TrailingSpacesSpec(t);
      forall i | |s| - TrailingSpaces(s) <= i < |s| - 1 ensures IsSpace(s[i]) {
        assert s[i] == t[i];
      }
      if TrailingSpaces(s) < |s| {
        assert s[|s| - 1 - TrailingSpaces(s)] == t[|t| - 1 - TrailingSpaces(t)];
      }
    }
  }

  /** The text `int()` parses: the bytes without surrounding whitespace. */
  function Strip(s: seq<byte>): (t: seq<byte>)
  {
    var l := LeadingSpaces(s);
    if l == |s| then []
    else
      LeadingSpacesSpec(s);
      TrailingSpacesSpec(s);
      s[l..|s| - TrailingSpaces(s)]
  }

  /** Python's decimal literal without its sign: a digit, then digits, where a
      single underscore may stand between two digits. */
  predicate IsDecimalLiteral(t: seq<byte>)
    decreases |t|
  {
    && |t| > 0 && IsDigit(t[0])
    && (|t| == 1 || if t[1] == UNDERSCORE then IsDecimalLiteral(t[2..]) else IsDecimalLiteral(t[1..]))
  }

  /** The digits of a literal, its separating underscores removed. */
  function LiteralDigits(t: seq<byte>): seq<byte>
    requires IsDecimalLiteral(t)
    decreases |t|
  {
    [t[0]] + (if |t| == 1 then [] else if t[1] == UNDERSCORE then LiteralDigits(t[2..]) else LiteralDigits(t[1..]))
  }

  function LiteralValue(t: seq<byte>): nat
    requires IsDecimalLiteral(t)
  {
    DigitsValue(LiteralDigits(t))
  }

  /** A literal holds only digits and underscores. */
  lemma {:induction false} LiteralAlphabet(t: seq<byte>)
    requires IsDecimalLiteral(t)
    ensures forall i | 0 <= i < |t| :: IsDigit(t[i]) || t[i] == UNDERSCORE
    decreases |t|
  {
    if |t| > 1 {
      var k := if t[1] == UNDERSCORE then 2 else 1;
      LiteralAlphabet(t[k..]);
      forall i | k <= i < |t| ensures IsDigit(t[i]) || t[i] == UNDERSCORE {
        assert t[i] == t[k..][i - k];
      }
    }
  }

  /** Any non-empty run of digits is a literal, and its own digits. */
  lemma {:induction false} DigitsAreLiteral(ds: seq<byte>)
    requires |ds| > 0 && forall i | 0 <= i < |ds| :: IsDigit(ds[i])
    ensures IsDecimalLiteral(ds) && LiteralDigits(ds) == ds
    decreases |ds|
  {
    if |ds| > 1 {
      assert IsDigit(ds[1]) && ds[1] != UNDERSCORE;
      DigitsAreLiteral(ds[1..]);
      assert [ds[0]] + ds[1..] == ds;
    }
  }

  /** What tcp_module.py makes of the header bytes it received: Python's
      `int()` of their text, None where `int()` (or the UTF-8 decoding before
      it) raises. Surrounding whitespace is ignored and a sign is allowed. */
  function DecodeHeader(b: seq<byte>): (r: Option<int>)
    ensures r.Some? ==> |Strip(b)| > 0
    ensures r.Some? && r.value < 0 ==> Strip(b)[0] == MINUS
  {
    var t := Strip(b);
    if |t| > 0 && (t[0] == PLUS || t[0] == MINUS) then
      if IsDecimalLiteral(t[1..]) then
        var v: int := LiteralValue(t[1..]);
        Some(if t[0] == MINUS then -v else v)
      else None
    else if IsDecimalLiteral(t) then Some(LiteralValue(t))
    else None
  }

  lemma {:induction false} TrailingSpacesOfPadding(ds: seq<byte>, k: nat)
    requires |ds| > 0 && !IsSpace(ds[|ds| - 1])
    ensures TrailingSpaces(ds + Spaces(k)) == k
  {
    if k == 0 {
      assert ds + Spaces(0) == ds;
    } else {
      assert (ds + Spaces(k))[..|ds + Spaces(k)| - 1] == ds + Spaces(k - 1);
      TrailingSpacesOfPadding(ds, k - 1);
    }
  }

  lemma {:induction false} LeadingSpacesOfPadding(j: nat, ds: seq<byte>)
    requires |ds| > 0 && !IsSpace(ds[0])
    ensures LeadingSpaces(Spaces(j) + ds) == j
  {
    if j == 0 {
      assert Spaces(0) + ds == ds;
    } else {
      assert (Spaces(j) + ds)[1..] == Spaces(j - 1) + ds;
      LeadingSpacesOfPadding(j - 1, ds);
    }
  }

  /** Stripping removes exactly the padding around a run that starts and
      ends with non-whitespace. */
  lemma StripPadded(j: nat, ds: seq<byte>, k: nat)
    requires |ds| > 0 && !IsSpace(ds[0]) && !IsSpace(ds[|ds| - 1])
    ensures Strip(Spaces(j) + ds + Spaces(k)) == ds
  {
    var front := Spaces(j) + ds;
    var back := ds + Spaces(k);
    var b := front + Spaces(k);
    assert b == Spaces(j) + back;
    assert back[0] == ds[0];
    LeadingSpacesOfPadding(j, back);
    assert front[|front| - 1] == ds[|ds| - 1];
    TrailingSpacesOfPadding(front, k);
    assert b[j..|b| - k] == ds;
  }

  /** Whitespace on either side of the digits is ignored: a run of digits
      with `j` spaces before it and `k` after it decodes to the number the
      digits denote. */
  lemma DecodeSurrounded(j: nat, ds: seq<byte>, k: nat)
    requires |ds| > 0 && forall i | 0 <= i < |ds| :: IsDigit(ds[i])
    ensures DecodeHeader(Spaces(j) + ds + Spaces(k)) == Some(DigitsValue(ds))
  {
    assert IsDigit(ds[0]) && IsDigit(ds[|ds| - 1]);
    StripPadded(j, ds, k);
    DigitsAreLiteral(ds);
  }

  /** Header round trip: parsing the header the way the server does returns
      the length the client encoded, for every length. */
  lemma HeaderRoundTrip(n: nat)
    ensures DecodeHeader(EncodeHeader(n)) == Some(n)
  {
    var ds := Digits(n);
    DigitsRoundTrip(n);
    var k := if |ds| < HEADER_SIZE then HEADER_SIZE - |ds| else 0;
    assert EncodeHeader(n) == Spaces(0) + ds + Spaces(k);
    DecodeSurrounded(0, ds, k);
  }

  /** For a length below 10^10 the header is exactly HEADER_SIZE bytes, so
      the first HEADER_SIZE bytes of header and payload are the header alone
      and decode to the length. */
  lemma HeaderPrefixRoundTrip(n: nat, payload: seq<byte>)
    requires n < Pow10(HEADER_SIZE)
    ensures (EncodeHeader(n) + payload)[..HEADER_SIZE] == EncodeHeader(n)
    ensures DecodeHeader((EncodeHeader(n) + payload)[..HEADER_SIZE]) == Some(n)
  {
    HeaderRoundTrip(n);
  }

  /** For a length of 10^10 or more the untruncated header overruns the field:
      the first HEADER_SIZE bytes are the leading ten digits, which decode to a
      smaller number than the length. */
  lemma LongLengthMisread(n: nat, payload: seq<byte>)
    requires n >= Pow10(HEADER_SIZE)
    ensures var v := DecodeHeader((EncodeHeader(n) + payload)[..HEADER_SIZE]);
            v.Some? && 0 <= v.value < n
  {
    var ds := Digits(n);
    DigitsCount(n, HEADER_SIZE);
    var lead := ds[..HEADER_SIZE];
    assert (EncodeHeader(n) + payload)[..HEADER_SIZE] == Spaces(0) + lead + Spaces(0);
    DecodeSurrounded(0, lead, 0);
    DigitsValueBound(lead);
  }

  /** A header that `int()` accepts holds at least one digit, and nothing but
      digits, whitespace, underscores and signs. So an empty or all-space
      header, or one with any other character, is rejected before the server
      reads a body byte. */
  lemma DecodeHeaderAccepts(b: seq<byte>)
    ensures DecodeHeader(b).Some? ==>
              (exists i | 0 <= i < |b| :: IsDigit(b[i]))
    ensures DecodeHeader(b).Some? ==>
              forall i | 0 <= i < |b| ::
                IsDigit(b[i]) || IsSpace(b[i]) || b[i] in {UNDERSCORE, PLUS, MINUS}
  {
    if DecodeHeader(b).Some? {
      var k := LeadingSpaces(b);
      var e := |b| - TrailingSpaces(b);
      LeadingSpacesSpec(b);
      TrailingSpacesSpec(b);
      var t := Strip(b);
      assert k < |b| && k < e;
      assert t == b[k..e];
      var s := if t[0] == PLUS || t[0] == MINUS then 1 else 0;
      var lit := t[s..];
      assert s == 0 ==> lit == t;
      assert IsDecimalLiteral(lit);
      LiteralAlphabet(lit);
      assert b[k + s] == lit[0];
      forall i | 0 <= i < |b|
        ensures IsDigit(b[i]) || IsSpace(b[i]) || b[i] in {UNDERSCORE, PLUS, MINUS}
      {
        if k <= i < e {
          assert b[i] == t[i - k];
          if i - k >= s {
            assert t[i - k] == lit[i - k - s];
          }
        }
      }
    }
  }

  /** An all-whitespace header, including an empty read, raises. */
  lemma BlankHeaderRejected(b: seq<byte>)
    requires forall i | 0 <= i < |b| :: IsSpace(b[i])
    ensures DecodeHeader(b) == None
  {
    DecodeHeaderAccepts(b);
  }

  /** The separators \x1c to \x1f are not whitespace to `int()`: a header
      such as "\x1c5" is rejected, not read as 5. */
  lemma SeparatorNotStripped(sep: byte, d: byte)
    requires 28 <= sep <= 31 && IsDigit(d)
    ensures DecodeHeader([sep, d]) == None
  {
    DecodeHeaderAccepts([sep, d]);
    assert !IsDigit([sep, d][0]) && !IsSpace([sep, d][0]);
  }
}
