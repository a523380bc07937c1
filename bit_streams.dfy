/**
 * BitOutputStream and BitInputStream: MSB-first packing of single bits into
 * bytes and the reverse. The underlying DataOutputStream is the sequence of
 * bytes written so far; the underlying DataInputStream is a fixed sequence of
 * bytes together with a read offset.
 */
module BitStreams {

  type Byte = b: int | 0 <= b < 256
  type Bit = b: int | 0 <= b < 2

  /** Number of bits in a byte (BYTE_SIZE in both classes). */
  const ByteSize: int := 8

  /** 2^n; the source uses Math.pow(2, n), exact for 0 <= n <= 7. */
  function Pow2(n: nat): (p: nat)
    ensures p >= 1
  {
    if n == 0 then 1 else 2 * Pow2(n - 1)
  }

  lemma {:induction false} Pow2Add(a: nat, b: nat)
    ensures Pow2(a + b) == Pow2(a) * Pow2(b)
  {
    if a > 0 {
      Pow2Add(a - 1, b);
      assert Pow2(a + b) == 2 * Pow2(a - 1 + b);
    }
  }

  lemma Pow2Byte()
    ensures Pow2(ByteSize) == 256
  {
    assert Pow2(2) == 4;
    assert Pow2(4) == 16;
    assert Pow2(6) == 64;
  }

  lemma MulNonneg(a: int, b: int)
    requires a >= 0 && b >= 0
    ensures a * b >= 0
  {
  }

  lemma MulAtLeast(d: int, m: int)
    requires m > 0
    ensures d > 0 ==> d * m >= m
    ensures d < 0 ==> d * m <= -m
  {
    if d > 0 {
      MulNonneg(d - 1, m);
      assert d * m == (d - 1) * m + m;
    } else if d < 0 {
      MulNonneg(-d - 1, m);
      assert d * m == -((-d - 1) * m) - m;
    }
  }

  /** Euclidean division is determined by quotient and remainder. */
  lemma DivModUnique(x: int, m: int, q: int, r: int)
    requires m > 0 && 0 <= r < m && x == q * m + r
    ensures x / m == q && x % m == r
  {
    var q', r' := x / m, x % m;
    assert (q - q') * m == r' - r;
    MulAtLeast(q - q', m);
  }

  lemma MulLeft(a: int, b: int, c: int)
    requires a <= b && c >= 0
    ensures a * c <= b * c
  {
    MulNonneg(b - a, c);
    assert b * c - a * c == (b - a) * c;
  }

  lemma Regroup(q2: int, b: int, r2: int, a: int, r1: int)
    ensures (q2 * b + r2) * a + r1 == q2 * (a * b) + (r2 * a + r1)
  {
  }

  lemma DivDiv(x: nat, a: nat, b: nat)
    requires a > 0 && b > 0
    ensures x / a / b == x / (a * b)
  {
    var q1, r1 := x / a, x % a;
    var q2, r2 := q1 / b, q1 % b;
    Regroup(q2, b, r2, a, r1);
    assert r2 * a + r1 < a * b by {
      MulLeft(r2, b - 1, a);
      assert (b - 1) * a == a * b - a;
    }
    DivModUnique(x, a * b, q2, r2 * a + r1);
  }

  lemma ModDouble(x: nat, m: nat)
    requires m > 0
    ensures 2 * ((x / 2) % m) + x % 2 == x % (2 * m)
  {
    var a, b := x / 2, x % 2;
    var q, r := a / m, a % m;
    assert x == q * (2 * m) + (2 * r + b) by {
      assert x == 2 * a + b;
      assert a == q * m + r;
    }
    DivModUnique(x, 2 * m, q, 2 * r + b);
  }

  // ---------------------------------------------------------------------
  // Bit strings read most significant bit first

  /** The number whose binary digits, most significant first, are bs. */
  function Val(bs: seq<Bit>): nat
  {
    if bs == [] then 0 else 2 * Val(bs[..|bs| - 1]) + bs[|bs| - 1]
  }

  lemma {:induction false} ValBound(bs: seq<Bit>)
    ensures Val(bs) < Pow2(|bs|)
  {
    if bs != [] {
      ValBound(bs[..|bs| - 1]);
    }
  }

  lemma {:induction false} ValConcat(a: seq<Bit>, b: seq<Bit>)
    ensures Val(a + b) == Val(a) * Pow2(|b|) + Val(b)
  {
    if b == [] {
      assert a + b == a;
    } else {
      var b' := b[..|b| - 1];
      assert (a + b)[..|a + b| - 1] == a + b';
      ValConcat(a, b');
      assert Val(a + b) == 2 * Val(a + b') + b[|b| - 1];
      assert Pow2(|b|) == 2 * Pow2(|b'|);
      ConcatStep(Val(a + b), Val(a), Pow2(|b'|), Val(b'), b[|b| - 1]);
    }
  }

  lemma ConcatStep(v: int, va: int, p: int, vb: int, last: int)
    requires v == 2 * (va * p + vb) + last
    ensures v == va * (2 * p) + (2 * vb + last)
  {
  }

  function Zeros(n: nat): (z: seq<Bit>)
    ensures |z| == n && forall i :: 0 <= i < n ==> z[i] == 0
  {
    if n == 0 then [] else Zeros(n - 1) + [0]
  }

  lemma {:induction false} ValZeros(n: nat)
    ensures Val(Zeros(n)) == 0
  {
    if n > 0 {
      assert Zeros(n)[..n - 1] == Zeros(n - 1);
      ValZeros(n - 1);
    }
  }

  /** The low n bits of x, most significant first. */
  function BitsOf(x: nat, n: nat): (bs: seq<Bit>)
    ensures |bs| == n
  {
    if n == 0 then [] else BitsOf(x / 2, n - 1) + [x % 2]
  }

  /** Reading back the digits of Val(bs) gives bs again. */
  lemma {:induction false} BitsOfVal(bs: seq<Bit>)
    ensures BitsOf(Val(bs), |bs|) == bs
  {
    if bs != [] {
      var p := bs[..|bs| - 1];
      var x := Val(bs);
      DivModUnique(x, 2, Val(p), bs[|bs| - 1]);
      BitsOfVal(p);
      assert bs == p + [bs[|bs| - 1]];
    }
  }

  /** The digits produced by BitsOf denote x modulo 2^n. */
  lemma {:induction false} ValBitsOf(x: nat, n: nat)
    ensures Val(BitsOf(x, n)) == x % Pow2(n)
  {
    if n > 0 {
      var bs := BitsOf(x, n);
      assert bs[..|bs| - 1] == BitsOf(x / 2, n - 1);
      ValBitsOf(x / 2, n - 1);
      ModDouble(x, Pow2(n - 1));
    }
  }

  /** BitsOf grows by its most significant digit on the left. */
  lemma {:induction false} BitsOfCons(x: nat, n: nat)
    ensures BitsOf(x, n + 1) == [(x / Pow2(n)) % 2] + BitsOf(x, n)
  {
    if n > 0 {
      BitsOfCons(x / 2, n - 1);
      DivDiv(x, 2, Pow2(n - 1));
    }
  }

  /** Digit i of BitsOf(x, n) is bit n-1-i of x. */
  lemma {:induction false} BitsOfAt(x: nat, n: nat, i: nat)
    requires i < n
    ensures BitsOf(x, n)[i] == (x / Pow2(n - 1 - i)) % 2
  {
    BitsOfCons(x, n - 1);
    if i > 0 {
      BitsOfAt(x, n - 1, i - 1);
    }
  }

  // ---------------------------------------------------------------------
  // Packing (BitOutputStream) and unpacking (BitInputStream)

  lemma ByteOfRange(bs: seq<Bit>)
    requires |bs| <= ByteSize
    ensures 0 <= Val(bs) * Pow2(ByteSize - |bs|) < 256
    ensures (Val(bs) * Pow2(ByteSize - |bs|)) % Pow2(ByteSize - |bs|) == 0
  {
    var k := ByteSize - |bs|;
    var v, p, h := Val(bs), Pow2(k), Pow2(|bs|);
    assert v < h by {
      ValBound(bs);
    }
    assert h * p == 256 by {
      Pow2Add(|bs|, k);
      Pow2Byte();
    }
    ScaledBelow(v, h, p);
  }

  /** A number below h, scaled by p where h * p == 256, is a multiple of p below 256. */
  lemma ScaledBelow(v: int, h: int, p: int)
    requires 0 <= v < h && p > 0 && h * p == 256
    ensures 0 <= v * p < 256 && (v * p) % p == 0
  {
    MulLeft(v, h - 1, p);
    assert (h - 1) * p == h * p - p;
    MulNonneg(v, p);
    DivModUnique(v * p, p, v, 0);
  }

  /** The byte value of a group of at most eight bits, the missing low bits zero. */
  function ByteOf(bs: seq<Bit>): Byte
    requires |bs| <= ByteSize
  {
    ByteOfRange(bs);
    Val(bs) * Pow2(ByteSize - |bs|)
  }

  /** The low 8 - |bs| bits of ByteOf(bs) are zero. */
  lemma ByteOfLowZero(bs: seq<Bit>)
    requires |bs| <= ByteSize
    ensures ByteOf(bs) % Pow2(ByteSize - |bs|) == 0
  {
    ByteOfRange(bs);
  }

  lemma ByteOfPadded(bs: seq<Bit>)
    requires |bs| <= ByteSize
    ensures ByteOf(bs) == Val(bs + Zeros(ByteSize - |bs|))
  {
    var k := ByteSize - |bs|;
    ValConcat(bs, Zeros(k));
    ValZeros(k);
    assert ByteOf(bs) == Val(bs) * Pow2(k);
  }

  /** The value writeBit adds to byteVal for bit b at position bitCount. */
  function BitWeight(b: Bit, bitCount: nat): nat
    requires bitCount < ByteSize
  {
    if b == 1 then Pow2(ByteSize - 1 - bitCount) else 0
  }

  lemma ShiftIn(v': int, v: int, b: int, p: int)
    requires v' == 2 * v + b
    ensures v' * p == v * (2 * p) + b * p
  {
  }

  /** Appending one bit to a partial byte adds 2^(7 - position) when the bit is 1. */
  lemma ByteOfSnoc(bs: seq<Bit>, b: Bit)
    requires |bs| < ByteSize
    ensures ByteOf(bs + [b]) == ByteOf(bs) + BitWeight(b, |bs|)
  {
    var p := Pow2(ByteSize - 1 - |bs|);
    assert (bs + [b])[..|bs|] == bs;
    assert Val(bs + [b]) == 2 * Val(bs) + b;
    assert Pow2(ByteSize - |bs|) == 2 * p;
    assert ByteOf(bs + [b]) == Val(bs + [b]) * p;
    assert ByteOf(bs) == Val(bs) * (2 * p);
    ShiftIn(Val(bs + [b]), Val(bs), b, p);
    assert b * p == BitWeight(b, |bs|);
  }

  /** The bytes emitted for a bit string: eight bits per byte, the last one zero-padded. */
  function Pack(bs: seq<Bit>): (bytes: seq<Byte>)
    ensures |bytes| == (|bs| + 7) / 8
    decreases |bs|
  {
    if |bs| == 0 then []
    else if |bs| <= ByteSize then [ByteOf(bs)]
    else [ByteOf(bs[..ByteSize])] + Pack(bs[ByteSize..])
  }

  /** Packing a whole number of bytes and then more bits packs each part separately. */
  lemma {:induction false} PackAppend(a: seq<Bit>, b: seq<Bit>)
    requires |a| % ByteSize == 0
    ensures Pack(a + b) == Pack(a) + Pack(b)
    decreases |a|
  {
    if a == [] {
      assert a + b == b;
    } else {
      assert (a + b)[..ByteSize] == a[..ByteSize];
      assert (a + b)[ByteSize..] == a[ByteSize..] + b;
      if |a| == ByteSize {
        assert a[ByteSize..] == [];
        if b == [] {
          assert a + b == a;
        }
      } else {
        PackAppend(a[ByteSize..], b);
      }
    }
  }

  /** The bits a sequence of bytes is read as, eight per byte, most significant first. */
  function Unpack(bytes: seq<Byte>): (bs: seq<Bit>)
    ensures |bs| == ByteSize * |bytes|
  {
    if bytes == [] then [] else BitsOf(bytes[0], ByteSize) + Unpack(bytes[1..])
  }

  /** The k-th bit read is digit k mod 8 of byte k / 8. */
  lemma {:induction false} UnpackDigit(bytes: seq<Byte>, k: nat)
    requires k < ByteSize * |bytes|
    ensures Unpack(bytes)[k] == BitsOf(bytes[k / ByteSize], ByteSize)[k % ByteSize]
  {
    if k >= ByteSize {
      UnpackDigit(bytes[1..], k - ByteSize);
      DivModUnique(k, ByteSize, (k - ByteSize) / ByteSize + 1, (k - ByteSize) % ByteSize);
    }
  }

  /** The k-th bit read is bit (7 - k mod 8) of byte k / 8. */
  lemma UnpackAt(bytes: seq<Byte>, k: nat)
    requires k < ByteSize * |bytes|
    ensures Unpack(bytes)[k] == (bytes[k / ByteSize] / Pow2(ByteSize - 1 - k % ByteSize)) % 2
  {
    var byte, pos := bytes[k / ByteSize], k % ByteSize;
    UnpackDigit(bytes, k);
    BitsOfAt(byte, ByteSize, pos);
    assert Unpack(bytes)[k] == BitsOf(byte, ByteSize)[pos];
  }

  /** Unpacking a prefix of the bytes gives a prefix of the bits. */
  lemma {:induction false} UnpackPrefix(bytes: seq<Byte>, n: nat)
    requires n <= |bytes|
    ensures Unpack(bytes[..n]) == Unpack(bytes)[..ByteSize * n]
  {
    if n > 0 {
      assert bytes[..n][1..] == bytes[1..][..n - 1];
      UnpackPrefix(bytes[1..], n - 1);
    }
  }

  /** Reading back what was packed returns the bits followed by zero padding. */
  lemma {:induction false} RoundTrip(bs: seq<Bit>)
    ensures Unpack(Pack(bs)) == bs + Zeros(ByteSize * |Pack(bs)| - |bs|)
    decreases |bs|
  {
    if |bs| == 0 {
    } else if |bs| <= ByteSize {
      ByteOfPadded(bs);
      BitsOfVal(bs + Zeros(ByteSize - |bs|));
    } else {
      var c := bs[..ByteSize];
      ByteOfPadded(c);
      BitsOfVal(c + Zeros(0));
      assert c + Zeros(0) == c;
      RoundTrip(bs[ByteSize..]);
      assert Pack(bs)[1..] == Pack(bs[ByteSize..]);
      assert bs == c + bs[ByteSize..];
    }
  }

  /** Every written bit comes back in place, and every padding bit reads as 0. */
  lemma ReadBackWritten(bs: seq<Bit>, k: nat)
    requires k < ByteSize * |Pack(bs)|
    ensures |Unpack(Pack(bs))| == ByteSize * ((|bs| + 7) / 8)
    ensures Unpack(Pack(bs))[k] == if k < |bs| then bs[k] else 0
  {
    RoundTrip(bs);
  }

  // ---------------------------------------------------------------------
  // BitOutputStream

  /**
   * The state of an open BitOutputStream after the bits `written`: the
   * complete bytes have been emitted and the pending bits sit in byteVal.
   */
  ghost predicate OpenState(written: seq<Bit>, out: seq<Byte>, bitCount: int, byteVal: int)
  {
    && 0 <= bitCount < ByteSize
    && bitCount == |written| % ByteSize
    && out == Pack(written[..|written| - bitCount])
    && byteVal == ByteOf(written[|written| - bitCount..])
  }

  /** Between calls byteVal is a byte whose unused low bits are zero. */
  lemma OpenStateBounds(written: seq<Bit>, out: seq<Byte>, bitCount: int, byteVal: int)
    requires OpenState(written, out, bitCount, byteVal)
    ensures 0 <= byteVal < 256 && byteVal % Pow2(ByteSize - bitCount) == 0
  {
    ByteOfLowZero(written[|written| - bitCount..]);
  }

  /** Appending a bit to `written` moves no bit out of or into the complete bytes. */
  lemma SnocSlices(written: seq<Bit>, b: Bit, c: nat)
    requires c <= |written|
    ensures var w := written + [b];
            && w[..|w| - (c + 1)] == written[..|written| - c]
            && w[|w| - (c + 1)..] == written[|written| - c..] + [b]
  {
  }

  /** The bit counter of writeBit is the number of bits written modulo 8. */
  lemma CountStep(n: nat, c: int)
    requires c == n % 8 && c < 7
    ensures c + 1 == (n + 1) % 8
  {
  }

  /**
   * One writeBit call that does not complete a byte; the new state is passed
   * in as written', bitCount' and byteVal'.
   */
  lemma WriteStepPartial(written: seq<Bit>, out: seq<Byte>, bitCount: int, byteVal: int, b: Bit,
                         written': seq<Bit>, bitCount': int, byteVal': int)
    requires OpenState(written, out, bitCount, byteVal) && bitCount < ByteSize - 1
    requires written' == written + [b] && bitCount' == bitCount + 1 && byteVal' == byteVal + BitWeight(b, bitCount)
    ensures OpenState(written', out, bitCount', byteVal') && 0 <= byteVal' < 256
  {
    var part := written[|written| - bitCount..];
    assert written'[..|written'| - bitCount'] == written[..|written| - bitCount]
        && written'[|written'| - bitCount'..] == part + [b] by {
      SnocSlices(written, b, bitCount);
    }
    assert ByteOf(part + [b]) == byteVal' by {
      ByteOfSnoc(part, b);
    }
    assert bitCount' == |written'| % ByteSize by {
      CountStep(|written|, bitCount);
    }
    OpenStateBounds(written', out, bitCount', byteVal');
  }

  /**
   * The eighth writeBit call of a byte: the byte is emitted and the counters
   * reset; the new bits and bytes are passed in as written' and out'.
   */
  lemma WriteStepFull(written: seq<Bit>, out: seq<Byte>, bitCount: int, byteVal: int, b: Bit,
                      written': seq<Bit>, out': seq<Byte>)
    requires OpenState(written, out, bitCount, byteVal) && bitCount == ByteSize - 1
    requires written' == written + [b] && out' == out + [byteVal + BitWeight(b, bitCount)]
    ensures OpenState(written', out', 0, 0)
  {
    FullPack(written, out, bitCount, byteVal, b);
    assert written'[..|written'|] == written';
    assert written'[|written'|..] == [];
    assert ByteOf([]) == 0;
  }

  /** After the eighth bit of a byte, the emitted bytes pack every bit written. */
  lemma FullPack(written: seq<Bit>, out: seq<Byte>, bitCount: int, byteVal: int, b: Bit)
    requires OpenState(written, out, bitCount, byteVal) && bitCount == ByteSize - 1
    ensures 0 <= byteVal + BitWeight(b, bitCount) < 256
    ensures Pack(written + [b]) == out + [byteVal + BitWeight(b, bitCount)]
    ensures |written + [b]| % ByteSize == 0
  {
    var full := written[..|written| - bitCount];
    var part := written[|written| - bitCount..];
    SplitSnoc(written, b, bitCount);
    FullCount(|written|, bitCount);
    ByteOfSnoc(part, b);
    PackAppend(full, part + [b]);
  }

  /** The bits after one more: the complete bytes, then the pending bits and the new one. */
  lemma SplitSnoc(written: seq<Bit>, b: Bit, c: int)
    requires 0 <= c <= |written|
    ensures written + [b] == written[..|written| - c] + (written[|written| - c..] + [b])
  {
    assert written == written[..|written| - c] + written[|written| - c..];
  }

  /** Seven pending bits: the complete bytes, and the bits with one more, are whole bytes. */
  lemma FullCount(n: nat, c: int)
    requires c == n % ByteSize && c == ByteSize - 1
    ensures (n - c) % ByteSize == 0 && (n + 1) % ByteSize == 0
  {
    DivModUnique(n - c, ByteSize, n / ByteSize, 0);
    DivModUnique(n + 1, ByteSize, n / ByteSize + 1, 0);
  }

  /** close: the pending bits, if any, go out as one zero-padded byte. */
  lemma CloseStep(written: seq<Bit>, out: seq<Byte>, bitCount: int, byteVal: int)
    requires OpenState(written, out, bitCount, byteVal)
    ensures out + (if bitCount != 0 then [byteVal] else []) == Pack(written)
  {
    var full := written[..|written| - bitCount];
    var part := written[|written| - bitCount..];
    assert written == full + part;
    assert |full| % ByteSize == 0 by {
      DivModUnique(|full|, ByteSize, |written| / ByteSize, 0);
    }
    PackAppend(full, part);
    if bitCount == 0 {
      assert part == [];
    } else {
      assert Pack(part) == [byteVal];
    }
  }

  /** A fresh BitOutputStream: nothing written, nothing emitted. */
  lemma OpenStateEmpty()
    ensures OpenState([], [], 0, 0)
  {
    var e: seq<Bit> := [];
    assert e[..0] == e && e[0..] == e;
    assert Val(e) == 0;
    assert ByteOf(e) == 0;
  }

  class BitOutputStream {
    /** Bytes handed to the DataOutputStream so far. */
    var out: seq<Byte>
    /** How many bits of the current byte have been used. */
    var bitCount: int
    /** The current, partially filled byte. */
    var byteVal: int
    /** Set by close; the DataOutputStream accepts nothing afterwards. */
    var closed: bool
    /** Every bit passed to writeBit, as 0 or 1. */
    ghost var Written: seq<Bit>

    ghost predicate Valid()
      reads this
    {
      && 0 <= bitCount < ByteSize
      && 0 <= byteVal < 256
      && (!closed ==> OpenState(Written, out, bitCount, byteVal))
      && (closed ==> out == Pack(Written) && bitCount == 0 && byteVal == 0)
    }

    constructor ()
      ensures !closed && out == [] && bitCount == 0 && byteVal == 0 && Written == []
      ensures Valid()
    {
      OpenStateEmpty();
      out := [];
      bitCount := 0;
      byteVal := 0;
      closed := false;
      Written := [];
    }

    /** Records bit '1' as 1 and any other character as 0; emits a byte after eight bits. */
    method WriteBit(bit: char)
      requires Valid() && !closed
      modifies this
      ensures Valid() && !closed
      ensures Written == old(Written) + [if bit == '1' then 1 else 0]
      ensures var v := old(byteVal) + BitWeight(if bit == '1' then 1 else 0, old(bitCount));
              if old(bitCount) == ByteSize - 1
              then out == old(out) + [v] && bitCount == 0 && byteVal == 0
              else out == old(out) && bitCount == old(bitCount) + 1 && byteVal == v
    {
      ghost var b: Bit := if bit == '1' then 1 else 0;
      ghost var w, o, c, v := Written, out, bitCount, byteVal;
      if bit == '1' {
        var basePow := ByteSize - 1 - bitCount;
        byteVal := byteVal + Pow2(basePow);
      }
      assert byteVal == v + BitWeight(b, c);
      bitCount := bitCount + 1;
      Written := Written + [b];
      if bitCount == ByteSize {
        FullPack(w, o, c, v, b);
        out := out + [byteVal];
        bitCount := 0;
        byteVal := 0;
        WriteStepFull(w, o, c, v, b, Written, out);
      } else {
        WriteStepPartial(w, o, c, v, b, Written, bitCount, byteVal);
      }
    }

    /** Emits the partial byte, if any bits are pending, and closes the stream. */
    method Close()
      requires Valid()
      modifies this
      ensures Valid() && closed && Written == old(Written)
      ensures out == old(out) + (if old(bitCount) != 0 then [old(byteVal)] else [])
      ensures out == Pack(Written) && bitCount == 0 && byteVal == 0
    {
      if !closed {
        CloseStep(Written, out, bitCount, byteVal);
      }
      if bitCount % ByteSize != 0 {
        out := out + [byteVal];
        bitCount := 0;
        byteVal := 0;
      }
      closed := true;
    }
  }

  // ---------------------------------------------------------------------
  // BitInputStream

  /**
   * The state of a BitInputStream over `input` after the calls that returned
   * `read`: while the input lasts, the bits returned are the unpacked input,
   * and bitSeq holds the digits of the byte loaded last.
   */
  ghost predicate ReadState(input: seq<Byte>, read: seq<int>, offset: int, bitCount: int, byteVal: int, bits: seq<int>)
  {
    && |bits| == ByteSize
    && 0 <= bitCount <= ByteSize
    && 0 <= byteVal < 256
    && 0 <= offset <= |input|
    && (|read| <= ByteSize * |input| ==>
          && offset == (|read| + 7) / ByteSize
          && bitCount == (if |read| == 0 then 0 else (|read| - 1) % ByteSize + 1)
          && read == Unpack(input)[..|read|]
          && (|read| > 0 ==> byteVal == input[offset - 1] && bits == BitsOf(input[offset - 1], ByteSize)))
  }

  /** Where the (k+1)-th bit lies, given the counters after k reads. */
  lemma ReadIndex(k: nat, offset: int, bitCount: int)
    requires offset == (k + 7) / ByteSize
    requires bitCount == if k == 0 then 0 else (k - 1) % ByteSize + 1
    ensures bitCount % ByteSize == 0 ==> k % ByteSize == 0 && k / ByteSize == offset
    ensures bitCount % ByteSize != 0 ==> k / ByteSize == offset - 1 && k % ByteSize == bitCount
    ensures (if bitCount % ByteSize == 0 then 1 else bitCount + 1) == k % ByteSize + 1
    ensures (if bitCount % ByteSize == 0 then offset + 1 else offset) == (k + 8) / ByteSize
  {
    if k > 0 {
      var a, c := (k - 1) / ByteSize, (k - 1) % ByteSize;
      DivModUnique(k + 7, ByteSize, a + 1, c);
      if c == ByteSize - 1 {
        DivModUnique(k, ByteSize, a + 1, 0);
        DivModUnique(k + 8, ByteSize, a + 2, 0);
      } else {
        DivModUnique(k, ByteSize, a, c + 1);
        DivModUnique(k + 8, ByteSize, a + 1, c + 1);
      }
    }
  }

  /** Appending the next element of `u` extends a prefix of `u`. */
  lemma PrefixExtend(u: seq<int>, read: seq<int>, bit: int)
    requires |read| < |u| && read == u[..|read|] && bit == u[|read|]
    ensures read + [bit] == u[..|read| + 1]
  {
    assert u[..|read| + 1] == u[..|read|] + [u[|read|]];
  }

  /** The (k+1)-th unpacked bit is digit k % 8 of byte k / 8. */
  lemma ReadDigit(input: seq<Byte>, k: nat, q: int, r: int)
    requires k < ByteSize * |input| && q == k / ByteSize && r == k % ByteSize
    ensures 0 <= q < |input| && 0 <= r < ByteSize
    ensures BitsOf(input[q], ByteSize)[r] == Unpack(input)[k]
  {
    UnpackDigit(input, k);
  }

  /** A readBit call that starts a new byte (bitCount % 8 == 0). */
  lemma ReadStepLoad(input: seq<Byte>, read: seq<int>, offset: int, bitCount: int, byteVal: int, bits: seq<int>,
                     offset': int, byteVal': int, bits': seq<int>)
    requires ReadState(input, read, offset, bitCount, byteVal, bits)
    requires bitCount % ByteSize == 0
    requires if offset < |input|
             then offset' == offset + 1 && byteVal' == input[offset] && bits' == BitsOf(input[offset], ByteSize)
             else offset' == offset && byteVal' == 0 && bits' == bits
    ensures |bits'| == ByteSize
    ensures ReadState(input, read + [bits'[0]], offset', 1, byteVal', bits')
    ensures |read| < ByteSize * |input| ==> bits'[0] == Unpack(input)[|read|]
  {
    if |read| < ByteSize * |input| {
      LoadInRange(input, read, offset, bitCount, byteVal, bits);
      LoadState(input, read, offset', byteVal', bits');
    } else {
      assert |read + [bits'[0]]| > ByteSize * |input|;
    }
  }

  /** The state after loading byte `offset' - 1` and returning its first digit. */
  lemma LoadState(input: seq<Byte>, read: seq<int>, offset': int, byteVal': int, bits': seq<int>)
    requires 0 < offset' <= |input| && offset' == (|read| + 8) / ByteSize && |read| % ByteSize == 0
    requires byteVal' == input[offset' - 1] && bits' == BitsOf(input[offset' - 1], ByteSize)
    requires read + [bits'[0]] == Unpack(input)[..|read| + 1]
    ensures ReadState(input, read + [bits'[0]], offset', 1, byteVal', bits')
  {
  }

  lemma LoadInRange(input: seq<Byte>, read: seq<int>, offset: int, bitCount: int, byteVal: int, bits: seq<int>)
    requires ReadState(input, read, offset, bitCount, byteVal, bits)
    requires bitCount % ByteSize == 0 && |read| < ByteSize * |input|
    ensures offset < |input| && offset + 1 == (|read| + 8) / ByteSize && |read| % ByteSize == 0
    ensures BitsOf(input[offset], ByteSize)[0] == Unpack(input)[|read|]
    ensures read + [BitsOf(input[offset], ByteSize)[0]] == Unpack(input)[..|read| + 1]
  {
    var k := |read|;
    assert offset < |input| && k / ByteSize == offset && k % ByteSize == 0 && offset + 1 == (k + 8) / ByteSize by {
      ReadIndex(k, offset, bitCount);
    }
    assert BitsOf(input[offset], ByteSize)[0] == Unpack(input)[k] by {
      ReadDigit(input, k, offset, 0);
    }
    PrefixExtend(Unpack(input), read, BitsOf(input[offset], ByteSize)[0]);
  }

  /** A readBit call that takes the next bit of the byte already loaded. */
  lemma ReadStepKeep(input: seq<Byte>, read: seq<int>, offset: int, bitCount: int, byteVal: int, bits: seq<int>)
    requires ReadState(input, read, offset, bitCount, byteVal, bits)
    requires bitCount % ByteSize != 0
    ensures 0 < bitCount < ByteSize
    ensures ReadState(input, read + [bits[bitCount]], offset, bitCount + 1, byteVal, bits)
    ensures |read| < ByteSize * |input| ==> bits[bitCount] == Unpack(input)[|read|]
  {
    if |read| < ByteSize * |input| {
      KeepInRange(input, read, offset, bitCount, byteVal, bits);
    }
  }

  lemma KeepInRange(input: seq<Byte>, read: seq<int>, offset: int, bitCount: int, byteVal: int, bits: seq<int>)
    requires ReadState(input, read, offset, bitCount, byteVal, bits)
    requires bitCount % ByteSize != 0 && |read| < ByteSize * |input|
    ensures 0 < bitCount < ByteSize && offset == (|read| + 8) / ByteSize && bitCount == |read| % ByteSize
    ensures bits[bitCount] == Unpack(input)[|read|]
    ensures read + [bits[bitCount]] == Unpack(input)[..|read| + 1]
  {
    KeepIndex(input, read, offset, bitCount, byteVal, bits);
    KeepDigit(input, read, offset, bitCount, byteVal, bits);
    PrefixExtend(Unpack(input), read, bits[bitCount]);
  }

  /** Where the next bit lies when the current byte still has digits left. */
  lemma KeepIndex(input: seq<Byte>, read: seq<int>, offset: int, bitCount: int, byteVal: int, bits: seq<int>)
    requires ReadState(input, read, offset, bitCount, byteVal, bits)
    requires bitCount % ByteSize != 0 && |read| < ByteSize * |input|
    ensures 0 < bitCount < ByteSize && 0 < offset <= |input|
    ensures |read| / ByteSize == offset - 1 && |read| % ByteSize == bitCount && (|read| + 8) / ByteSize == offset
  {
    ReadIndex(|read|, offset, bitCount);
  }

  /** The digit of the current byte at bitCount is the next unpacked bit. */
  lemma KeepDigit(input: seq<Byte>, read: seq<int>, offset: int, bitCount: int, byteVal: int, bits: seq<int>)
    requires ReadState(input, read, offset, bitCount, byteVal, bits)
    requires bitCount % ByteSize != 0 && |read| < ByteSize * |input|
    ensures 0 < bitCount < ByteSize && bits[bitCount] == Unpack(input)[|read|]
  {
    KeepIndex(input, read, offset, bitCount, byteVal, bits);
    ReadDigit(input, |read|, offset - 1, bitCount);
  }

  class BitInputStream {
    /** The bytes of the file being read. */
    const input: seq<Byte>
    /** How many bytes readUnsignedByte has consumed. */
    var offset: nat
    /** How many bits of the current byte have been returned. */
    var bitCount: int
    /** The current byte. */
    var byteVal: int
    /** The bits of the current byte, most significant first. */
    const bitSeq: array<int>
    /** Every bit returned by readBit. */
    ghost var Read: seq<int>

    ghost predicate Valid()
      reads this, bitSeq
    {
      ReadState(input, Read, offset, bitCount, byteVal, bitSeq[..])
    }

    constructor (data: seq<Byte>)
      ensures Valid() && fresh(bitSeq)
      ensures input == data && offset == 0 && bitCount == 0 && byteVal == 0 && Read == []
      ensures bitSeq[..] == Zeros(ByteSize)
    {
      input := data;
      offset := 0;
      bitCount := 0;
      byteVal := 0;
      bitSeq := new int[ByteSize](_ => 0);
      Read := [];
    }

    /**
     * Returns the next bit, loading a new byte whenever bitCount % 8 == 0. At
     * the end of the input the source's read fails, the failure is only
     * reported, and the stale bits of bitSeq are returned.
     */
    method ReadBit() returns (b: int)
      requires Valid()
      modifies this, bitSeq
      ensures Valid() && Read == old(Read) + [b]
      ensures 1 <= bitCount <= ByteSize && b == bitSeq[bitCount - 1]
      ensures if old(bitCount) % ByteSize == 0 then
                && bitCount == 1
                && (if old(offset) < |input|
                    then offset == old(offset) + 1 && byteVal == input[old(offset)]
                         && bitSeq[..] == BitsOf(input[old(offset)], ByteSize)
                    else offset == old(offset) && byteVal == 0 && bitSeq[..] == old(bitSeq[..]))
              else
                bitCount == old(bitCount) + 1 && offset == old(offset) && byteVal == old(byteVal)
                && bitSeq[..] == old(bitSeq[..])
      ensures |Read| <= ByteSize * |input| ==> b == Unpack(input)[|Read| - 1]
    {
      ghost var r, o, c, v, bs := Read, offset, bitCount, byteVal, bitSeq[..];
      if bitCount % ByteSize == 0 {
        byteVal := 0;
        bitCount := 0;
        if offset < |input| {
          byteVal := input[offset];
          offset := offset + 1;
          CreateBitSeq(byteVal);
        }
        ReadStepLoad(input, r, o, c, v, bs, offset, byteVal, bitSeq[..]);
      } else {
        ReadStepKeep(input, r, o, c, v, bs);
      }
      bitCount := bitCount + 1;
      b := bitSeq[bitCount - 1];
      Read := Read + [b];
    }

    /** Fills bitSeq with the eight bits of bVal, most significant first. */
    method CreateBitSeq(bVal: int)
      requires bitSeq.Length == ByteSize && 0 <= bVal < 256
      modifies bitSeq
      ensures bitSeq[..] == BitsOf(bVal, ByteSize)
    {
      var byteValue := bVal;
      var pos := bitSeq.Length - 1;
      while pos >= 0
        invariant -1 <= pos < ByteSize
        invariant byteValue == bVal / Pow2(ByteSize - 1 - pos)
        invariant bitSeq[pos + 1..] == BitsOf(bVal, ByteSize - 1 - pos)
      {
        DigitStep(bVal, ByteSize - 1 - pos, byteValue);
        bitSeq[pos] := byteValue % 2;
        assert bitSeq[pos..] == [bitSeq[pos]] + bitSeq[pos + 1..];
        byteValue := byteValue / 2;
        pos := pos - 1;
      }
    }
  }

  /** One step of createBitSeq: the last digit of x / 2^k is the next digit of x, counted from the right. */
  lemma DigitStep(x: nat, k: nat, q: int)
    requires q == x / Pow2(k)
    ensures q / 2 == x / Pow2(k + 1)
    ensures [q % 2] + BitsOf(x, k) == BitsOf(x, k + 1)
  {
    BitsOfCons(x, k);
    DivDiv(x, Pow2(k), 2);
    assert Pow2(k + 1) == Pow2(k) * 2;
  }

  /** The value of the bits createBitSeq produces is the byte itself. */
  lemma BitSeqValue(b: Byte)
    ensures Val(BitsOf(b, ByteSize)) == b
  {
    ValBitsOf(b, ByteSize);
    Pow2Byte();
    DivModUnique(b, 256, 0, b);
  }
}
