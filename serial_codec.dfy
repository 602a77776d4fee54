/**
 * The textual form of a 1-Wire serial number: `b2s` renders each byte in
 * hexadecimal and joins the fields with ':', `s2b` splits on ':', parses each
 * field in base 16 and packs the values into bytes.
 */
module SerialCodec {
  import opened Results

  /** An element of a Python `bytes` or `bytearray`. */
  type byte = x: int | 0 <= x < 256

  /** The two ways `s2b` raises ValueError. */
  datatype CodecError =
    | InvalidLiteral(field: string)  // `int(field, 16)` rejects the field
    | OutOfRange(value: nat)         // `bytes(...)` rejects a value above 255

  // ---------------------------------------------------------------- digits

  predicate IsHexDigit(c: char) {
    '0' <= c <= '9' || 'a' <= c <= 'f' || 'A' <= c <= 'F'
  }

  predicate IsLowerHexDigit(c: char) {
    '0' <= c <= '9' || 'a' <= c <= 'f'
  }

  /** A field `int(y, 16)` accepts: one or more hexadecimal digits, either case. */
  predicate IsHexField(y: string) {
    |y| >= 1 && forall i :: 0 <= i < |y| ==> IsHexDigit(y[i])
  }

  function DigitValue(c: char): (d: nat)
    requires IsHexDigit(c)
    ensures d < 16
  {
    if '0' <= c <= '9' then c as int - '0' as int
    else if 'a' <= c <= 'f' then c as int - 'a' as int + 10
    else c as int - 'A' as int + 10
  }

  /** The lowercase digit for d; DigitValue reads it back. */
  function DigitChar(d: nat): (c: char)
    requires d < 16
    ensures IsLowerHexDigit(c) && IsHexDigit(c)
    ensures DigitValue(c) == d
  {
    if d < 10 then ('0' as int + d) as char else ('a' as int + d - 10) as char
  }

  function Pow16(k: nat): (p: nat)
    ensures p >= 1
  {
    if k == 0 then 1 else 16 * Pow16(k - 1)
  }

  // ------------------------------------------------------------ hex(y, "")

  /**
   * `hex(n, "")`: n in base 16, lowercase, without prefix and without
   * leading zeros.
   */
  function Hex(n: nat): (s: string)
    ensures 1 <= |s|
    ensures forall i :: 0 <= i < |s| ==> IsLowerHexDigit(s[i]) && IsHexDigit(s[i])
    ensures n < 16 <==> |s| == 1
    ensures n < 256 ==> |s| <= 2
    decreases n
  {
    if n < 16 then [DigitChar(n)] else Hex(n / 16) + [DigitChar(n % 16)]
  }

  /** The number a string of hexadecimal digits denotes, most significant first. */
  function HexValue(s: string): (v: nat)
    requires forall i :: 0 <= i < |s| ==> IsHexDigit(s[i])
    ensures v < Pow16(|s|)
  {
    if s == [] then 0
    else
      var v0 := HexValue(s[..|s| - 1]);
      assert v0 <= Pow16(|s| - 1) - 1;
      v0 * 16 + DigitValue(s[|s| - 1])
  }

  /**
   * `int(y, 16)`: the value of the field, or None where Python raises
   * ValueError. A field of n digits denotes less than 16^n, so one or two
   * digits always fit a byte.
   */
  function ParseField(y: string): (r: Option<nat>)
    ensures r.Some? <==> IsHexField(y)
    ensures r.Some? ==> r.value < Pow16(|y|)
    ensures r.Some? && |y| <= 2 ==> r.value < 256
  {
    assert Pow16(2) == 256;
    if IsHexField(y) then Some(HexValue(y)) else None
  }

  lemma {:induction false} HexRoundTrip(n: nat)
    ensures ParseField(Hex(n)) == Some(n)
    decreases n
  {
    var s := Hex(n);
    if n < 16 {
      assert s[..0] == [];
    } else {
      HexRoundTrip(n / 16);
      assert s[..|s| - 1] == Hex(n / 16);
    }
  }

  function Zeros(k: nat): (z: string)
    ensures |z| == k && forall i :: 0 <= i < k ==> z[i] == '0'
  {
    if k == 0 then [] else Zeros(k - 1) + ['0']
  }

  /** Leading zeros do not change what `int(y, 16)` returns. */
  lemma {:induction false} LeadingZeros(k: nat, s: string)
    requires forall i :: 0 <= i < |s| ==> IsHexDigit(s[i])
    ensures forall i :: 0 <= i < |Zeros(k) + s| ==> IsHexDigit((Zeros(k) + s)[i])
    ensures HexValue(Zeros(k) + s) == HexValue(s)
    decreases |s|, k
  {
    var t := Zeros(k) + s;
    if s == [] {
      if k > 0 {
        assert t[..|t| - 1] == Zeros(k - 1) + s;
        LeadingZeros(k - 1, s);
      }
    } else {
      assert t[..|t| - 1] == Zeros(k) + s[..|s| - 1];
      LeadingZeros(k, s[..|s| - 1]);
    }
  }

  /** The zero-padded two-digit rendering of a byte. */
  function Hex2(b: byte): string {
    if b < 16 then Zeros(1) + Hex(b) else Hex(b)
  }

  lemma Hex2RoundTrip(b: byte)
    ensures |Hex2(b)| == 2
    ensures ParseField(Hex2(b)) == Some(b)
  {
    HexRoundTrip(b);
    if b < 16 {
      LeadingZeros(1, Hex(b));
    }
  }

  // ------------------------------------------------------ split and join

  /** Python's `str.split(":")`: never empty, "" gives [""], fields hold no ':'. */
  function Split(t: string): (fs: seq<string>)
    ensures |fs| >= 1
    ensures forall i :: 0 <= i < |fs| ==> ':' !in fs[i]
  {
    if t == [] then [[]]
    else
      var rest := Split(t[1..]);
      if t[0] == ':' then [[]] + rest else [[t[0]] + rest[0]] + rest[1..]
  }

  /**
   * Python's `":".join(fs)`: starts with the first field, and for colon-free
   * fields puts exactly one ':' between neighbours.
   */
  function Join(fs: seq<string>): (t: string)
    ensures |fs| >= 1 ==> fs[0] <= t
    ensures (forall i :: 0 <= i < |fs| ==> ColonCount(fs[i]) == 0) ==>
      ColonCount(t) == if fs == [] then 0 else |fs| - 1
  {
    if |fs| == 0 then []
    else if |fs| == 1 then fs[0]
    else
      ColonCountAppend(fs[0] + [':'], Join(fs[1..]));
      ColonCountAppend(fs[0], [':']);
      fs[0] + [':'] + Join(fs[1..])
  }

  function ColonCount(t: string): nat {
    if t == [] then 0 else (if t[0] == ':' then 1 else 0) + ColonCount(t[1..])
  }

  lemma {:induction false} ColonCountAppend(a: string, b: string)
    ensures ColonCount(a + b) == ColonCount(a) + ColonCount(b)
  {
    if a == [] {
      assert a + b == b;
    } else {
      assert (a + b)[1..] == a[1..] + b;
      ColonCountAppend(a[1..], b);
    }
  }

  /** Hexadecimal renderings hold no ':'. */
  lemma HexColonFree(s: seq<byte>)
    ensures forall i :: 0 <= i < |s| ==> ':' !in Hex(s[i]) && ColonCount(Hex(s[i])) == 0
  {
    forall i | 0 <= i < |s| ensures ':' !in Hex(s[i]) && ColonCount(Hex(s[i])) == 0 {
      var h := Hex(s[i]);
      assert forall k :: 0 <= k < |h| ==> IsHexDigit(h[k]);
      NoColonCount(h);
    }
  }

  lemma {:induction false} NoColonCount(f: string)
    requires ':' !in f
    ensures ColonCount(f) == 0
  {
    if f != [] {
      assert f == [f[0]] + f[1..];
      NoColonCount(f[1..]);
    }
  }

  /** Splitting on ':' yields one field more than there are colons. */
  lemma {:induction false} SplitFieldCount(t: string)
    ensures |Split(t)| == ColonCount(t) + 1
  {
    if t != [] {
      SplitFieldCount(t[1..]);
    }
  }

  /** Joining the fields of a split gives back the text. */
  lemma {:induction false} JoinSplit(t: string)
    ensures Join(Split(t)) == t
  {
    if t != [] {
      var rest := Split(t[1..]);
      JoinSplit(t[1..]);
      if t[0] == ':' {
        assert Split(t) == [[]] + rest;
        assert t == [':'] + t[1..];
      } else {
        var fs := Split(t);
        assert fs == [[t[0]] + rest[0]] + rest[1..];
        if |rest| == 1 {
          assert t[1..] == rest[0];
        } else {
          assert Join(rest) == rest[0] + [':'] + Join(rest[1..]);
          assert fs[1..] == rest[1..];
        }
        assert t == [t[0]] + t[1..];
      }
    }
  }

  lemma {:induction false} SplitPrefix(f: string, t: string)
    requires ':' !in f
    ensures Split(f + t) == [f + Split(t)[0]] + Split(t)[1..]
  {
    if f == [] {
      var st := Split(t);
      assert f + t == t;
      assert f + st[0] == st[0];
      assert st == [st[0]] + st[1..];
    } else {
      SplitPrefix(f[1..], t);
      assert (f + t)[1..] == f[1..] + t;
      assert [f[0]] + (f[1..] + Split(t)[0]) == f + Split(t)[0];
    }
  }

  /** Splitting the join of colon-free fields gives back the fields. */
  lemma {:induction false} SplitJoin(fs: seq<string>)
    requires |fs| >= 1
    requires forall i :: 0 <= i < |fs| ==> ':' !in fs[i]
    ensures Split(Join(fs)) == fs
  {
    if |fs| == 1 {
      SplitPrefix(fs[0], []);
      assert fs[0] + [] == fs[0];
    } else {
      var j := Join(fs[1..]);
      SplitJoin(fs[1..]);
      assert Join(fs) == fs[0] + ([':'] + j);
      SplitPrefix(fs[0], [':'] + j);
      assert ([':'] + j)[1..] == j;
      assert Split([':'] + j) == [[]] + fs[1..];
      assert fs[0] + [] == fs[0];
    }
  }

  // ------------------------------------------------------------ b2s, s2b

  /**
   * `b2s(serial)`: the hexadecimal rendering of each byte, joined by ':'.
   * Empty exactly for the empty serial; otherwise one colon fewer than bytes.
   */
  function B2S(serial: seq<byte>): (t: string)
    ensures t == [] <==> serial == []
    ensures ColonCount(t) == if serial == [] then 0 else |serial| - 1
  {
    var fs := seq(|serial|, i requires 0 <= i < |serial| => Hex(serial[i]));
    HexColonFree(serial);
    Join(fs)
  }

  /** The list comprehension `[int(y, 16) for y in flds]`; the first bad field raises. */
  function ParseAll(flds: seq<string>): (r: Result<seq<nat>, CodecError>)
    ensures r.Success? <==> forall i :: 0 <= i < |flds| ==> IsHexField(flds[i])
    ensures r.Success? ==>
      |r.value| == |flds| &&
      forall i :: 0 <= i < |flds| ==> IsHexField(flds[i]) && r.value[i] == HexValue(flds[i])
    ensures r.Failure? ==>
      exists i :: 0 <= i < |flds| && !IsHexField(flds[i]) && r.error == InvalidLiteral(flds[i]) &&
        forall j :: 0 <= j < i ==> IsHexField(flds[j])
  {
    if flds == [] then Success([])
    else match ParseField(flds[0])
      case None => Failure(InvalidLiteral(flds[0]))
      case Some(v) =>
        var rest :- ParseAll(flds[1..]);
        Success([v] + rest)
  }

  /** `bytes(xs)`: the first value above 255 raises. */
  function ToBytes(xs: seq<nat>): (r: Result<seq<byte>, CodecError>)
    ensures r.Success? <==> forall i :: 0 <= i < |xs| ==> xs[i] < 256
    ensures r.Success? ==> |r.value| == |xs| && forall i :: 0 <= i < |xs| ==> r.value[i] == xs[i]
    ensures r.Failure? ==>
      exists i :: 0 <= i < |xs| && xs[i] >= 256 && r.error == OutOfRange(xs[i]) &&
        forall j :: 0 <= j < i ==> xs[j] < 256
  {
    if xs == [] then Success([])
    else if xs[0] >= 256 then Failure(OutOfRange(xs[0]))
    else
      var rest :- ToBytes(xs[1..]);
      Success([xs[0] as byte] + rest)
  }

  /** Every field is one `int(y, 16)` accepts. */
  predicate AllHex(flds: seq<string>) {
    forall i :: 0 <= i < |flds| ==> IsHexField(flds[i])
  }

  /** Every field is hexadecimal and denotes a value `bytes(...)` accepts. */
  predicate AllBytes(flds: seq<string>) {
    AllHex(flds) && forall i :: 0 <= i < |flds| ==> HexValue(flds[i]) < 256
  }

  /**
   * `s2b(serial)`: succeeds exactly when every ':'-separated field is
   * hexadecimal and at most 255, and then yields one byte per field, in order.
   * A non-hexadecimal field is reported even when a value before it is too big,
   * since every field is parsed before any byte is built.
   */
  function S2B(t: string): (r: Result<seq<byte>, CodecError>)
    ensures r.Success? <==> AllBytes(Split(t))
    ensures r.Success? ==>
      AllHex(Split(t)) && |r.value| == |Split(t)| &&
      forall i :: 0 <= i < |r.value| ==> r.value[i] == HexValue(Split(t)[i])
    ensures !AllHex(Split(t)) ==> r.Failure? && r.error.InvalidLiteral?
    ensures r.Failure? && r.error.OutOfRange? ==> AllHex(Split(t))
    ensures t == [] ==> r == Failure(InvalidLiteral([]))
  {
    var flds := Split(t);
    match ParseAll(flds)
    case Failure(e) => Failure(e)
    case Success(xs) =>
      assert |xs| == |flds|;
      assert forall i :: 0 <= i < |flds| ==> xs[i] == HexValue(flds[i]);
      ToBytes(xs)
  }

  // ---------------------------------------------------------- properties

  /** `b2s(s)` splits back into exactly the rendering of each byte of s. */
  lemma B2SFields(s: seq<byte>)
    requires |s| >= 1
    ensures |Split(B2S(s))| == |s|
    ensures forall i :: 0 <= i < |s| ==> Split(B2S(s))[i] == Hex(s[i])
  {
    var fs := seq(|s|, i requires 0 <= i < |s| => Hex(s[i]));
    forall i | 0 <= i < |fs| ensures ':' !in fs[i] {
      assert forall k :: 0 <= k < |fs[i]| ==> IsHexDigit(fs[i][k]);
    }
    SplitJoin(fs);
  }

  /** The empty serial renders as "", which `s2b` refuses. */
  lemma EmptySerialDoesNotRoundTrip()
    ensures B2S([]) == []
    ensures S2B(B2S([])).Failure?
  {
  }

  /**
   * Any rendering that joins, with ':', one hexadecimal field per byte whose
   * value is that byte parses back to the bytes, whatever padding the fields carry.
   */
  lemma {:induction false} S2BOfRendering(s: seq<byte>, fields: seq<string>)
    requires |s| >= 1 && |fields| == |s|
    requires forall i :: 0 <= i < |s| ==> ParseField(fields[i]) == Some(s[i])
    ensures S2B(Join(fields)) == Success(s)
  {
    forall i | 0 <= i < |fields| ensures ':' !in fields[i] {
      assert IsHexField(fields[i]);
      assert forall k :: 0 <= k < |fields[i]| ==> IsHexDigit(fields[i][k]);
    }
    SplitJoin(fields);
    var r := S2B(Join(fields));
    assert r.Success?;
    assert r.value == s;
  }

  /** `s2b(b2s(s)) == s` for every non-empty byte sequence. */
  lemma S2BOfB2S(s: seq<byte>)
    requires |s| >= 1
    ensures S2B(B2S(s)) == Success(s)
  {
    var fs := seq(|s|, i requires 0 <= i < |s| => Hex(s[i]));
    forall i | 0 <= i < |s| ensures ParseField(fs[i]) == Some(s[i]) {
      HexRoundTrip(s[i]);
    }
    S2BOfRendering(s, fs);
  }

  /** The zero-padded two-digit rendering parses back as well. */
  lemma S2BOfPadded(s: seq<byte>)
    requires |s| >= 1
    ensures S2B(Join(seq(|s|, i requires 0 <= i < |s| => Hex2(s[i])))) == Success(s)
  {
    var fs := seq(|s|, i requires 0 <= i < |s| => Hex2(s[i]));
    forall i | 0 <= i < |s| ensures ParseField(fs[i]) == Some(s[i]) {
      Hex2RoundTrip(s[i]);
    }
    S2BOfRendering(s, fs);
  }

  /** Text whose every ':'-field is one or two hexadecimal digits always parses. */
  lemma ShortFieldsParse(t: string)
    requires AllHex(Split(t))
    requires forall i :: 0 <= i < |Split(t)| ==> |Split(t)[i]| <= 2
    ensures S2B(t).Success?
  {
  }
}
