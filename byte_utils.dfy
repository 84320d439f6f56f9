/** Byte helpers of the library (its ByteUtils class): serialising primitive
    values, concatenating and comparing byte arrays, hex formatting, single-bit
    updates and big-endian 16-bit reads.

    Multi-byte values are serialised in host byte order by the library; the
    model fixes that order to little-endian. */
module ByteUtils {
  import opened Common
  import ByteArith

  type byte = bv8

  /** C#'s unsigned integer types, as the ranges of their values. */
  type uint16 = x: int | 0 <= x < 0x1_0000
  type uint32 = x: int | 0 <= x < 0x1_0000_0000
  type uint64 = x: int | 0 <= x < 0x1_0000_0000_0000_0000

  /** The byte `(byte)x` for a C# integer `x`: its low eight bits. */
  function Low8(x: int): (b: byte)
    ensures b as int == x % 256
  {
    var n := x % 256;
    ByteArith.ByteOfSmall(n);
    n as byte
  }

  /** On a value that already fits a byte, `(byte)x` is that value. */
  lemma Low8Exact(x: int)
    requires 0 <= x < 256
    ensures Low8(x) == x as byte
  {
  }

  function Pow256(n: nat): (p: nat)
    ensures p >= 1
  {
    if n == 0 then 1 else 256 * Pow256(n - 1)
  }

  // ---------------------------------------------------------------------------
  // Number <-> bytes

  /** The `n` low-order bytes of `v`, least significant first (BitConverter.GetBytes). */
  function LittleEndian(v: nat, n: nat): (bs: seq<byte>)
    ensures |bs| == n
  {
    if n == 0 then [] else [Low8(v)] + LittleEndian(v / 256, n - 1)
  }

  /** The two bytes BitConverter writes for a 16-bit value. */
  lemma LittleEndianPair(v: nat)
    ensures LittleEndian(v, 2) == [Low8(v), Low8(v / 256)]
  {
    assert LittleEndian(v / 256 / 256, 0) == [];
    assert LittleEndian(v / 256, 1) == [Low8(v / 256)];
  }

  /** The two bytes of a 16-bit value give it back. */
  lemma Split16(v: uint16)
    ensures Low8(v) as int + 256 * Low8(v / 256) as int == v
  {
    assert (v / 256) % 256 == v / 256;
  }

  /** The number a little-endian byte sequence denotes. */
  function FromLittleEndian(bs: seq<byte>): nat {
    if bs == [] then 0 else bs[0] as int + 256 * FromLittleEndian(bs[1..])
  }

  /** The number a big-endian byte sequence denotes: every reader of the
      library folds bytes this way, `res = (res << 8) | next`. */
  function BigEndian(bs: seq<byte>): nat {
    if bs == [] then 0 else BigEndian(bs[..|bs| - 1]) * 256 + bs[|bs| - 1] as int
  }

  lemma BigEndianPair(hi: byte, lo: byte)
    ensures BigEndian([hi, lo]) == hi as int * 256 + lo as int
  {
    assert [hi, lo][..1] == [hi];
    assert [hi][..0] == [];
    assert BigEndian([hi]) == hi as int;
    assert BigEndian([hi, lo]) == BigEndian([hi]) * 256 + lo as int;
  }

  lemma {:induction false} BigEndianBound(bs: seq<byte>)
    ensures BigEndian(bs) < Pow256(|bs|)
  {
    if bs != [] {
      BigEndianBound(bs[..|bs| - 1]);
    }
  }

  /** Serialising and reading back a value that fits in `n` bytes gives the value. */
  lemma {:induction false} LittleEndianRoundTrip(v: nat, n: nat)
    requires v < Pow256(n)
    ensures FromLittleEndian(LittleEndian(v, n)) == v
  {
    if n > 0 {
      assert v / 256 < Pow256(n - 1);
      LittleEndianRoundTrip(v / 256, n - 1);
      assert LittleEndian(v, n)[1..] == LittleEndian(v / 256, n - 1);
    }
  }

  // ---------------------------------------------------------------------------
  // Pack

  /** The run-time type of one argument of Pack. Float and double are not modelled. */
  datatype Primitive =
    | AByte(b: byte)
    | AByteArray(bytes: seq<byte>)
    | AUInt16(u16: uint16)
    | AInt16(i16: int)
    | AUInt32(u32: uint32)
    | AInt32(i32: int)
    | AUInt64(u64: uint64)
    | AInt64(i64: int)
    | AString(s: string)
    | AnOther

  /** ASCII encoding: a character outside 0..127 becomes '?'. */
  function AsciiByte(c: char): byte {
    if c as int < 128 then (c as int) as byte else 0x3F
  }

  function Ascii(s: string): (bs: seq<byte>)
    ensures |bs| == |s|
    ensures forall i :: 0 <= i < |s| ==> bs[i] == AsciiByte(s[i])
  {
    if s == [] then [] else [AsciiByte(s[0])] + Ascii(s[1..])
  }

  /** The bytes Pack writes for one argument. A boxed signed value is unboxed
      as its unsigned counterpart (`(ushort)o` on a boxed short), which throws. */
  function Encode(p: Primitive): Result<seq<byte>> {
    match p
    case AByte(b) => Ok([b])
    case AByteArray(bs) => Ok(bs)
    case AUInt16(v) => Ok(LittleEndian(v, 2))
    case AUInt32(v) => Ok(LittleEndian(v, 4))
    case AUInt64(v) => Ok(LittleEndian(v, 8))
    case AString(s) => Ok(Ascii(s))
    case AInt16(_) => Err(InvalidCast)
    case AInt32(_) => Err(InvalidCast)
    case AInt64(_) => Err(InvalidCast)
    case AnOther => Err(NotPrimitive)
  }

  /** The number of bytes an argument occupies in Pack's output. */
  function Width(p: Primitive): nat {
    match p
    case AByte(_) => 1
    case AByteArray(bs) => |bs|
    case AUInt16(_) => 2
    case AUInt32(_) => 4
    case AUInt64(_) => 8
    case AString(s) => |s|
    case _ => 0
  }

  predicate Packable(p: Primitive) {
    !(p.AInt16? || p.AInt32? || p.AInt64? || p.AnOther?)
  }

  function TotalWidth(ps: seq<Primitive>): nat {
    if ps == [] then 0 else TotalWidth(ps[..|ps| - 1]) + Width(ps[|ps| - 1])
  }

  /** What Pack returns: the encodings of the arguments in order, or the
      exception of the first argument it cannot encode. */
  function PackOf(ps: seq<Primitive>): Result<seq<byte>> {
    if ps == [] then Ok([])
    else
      var front :- PackOf(ps[..|ps| - 1]);
      var last :- Encode(ps[|ps| - 1]);
      Ok(front + last)
  }

  lemma {:induction false} EncodeWidth(p: Primitive)
    ensures Encode(p).Ok? <==> Packable(p)
    ensures Encode(p).Ok? ==> |Encode(p).value| == Width(p)
  {
  }

  /** Pack succeeds exactly when no argument is signed or unsupported, and then
      writes 1 byte per byte, |a| per byte array, 2/4/8 per 16/32/64-bit value
      and |s| per string. */
  lemma {:induction false} PackLength(ps: seq<Primitive>)
    ensures PackOf(ps).Ok? <==> forall i :: 0 <= i < |ps| ==> Packable(ps[i])
    ensures PackOf(ps).Ok? ==> |PackOf(ps).value| == TotalWidth(ps)
  {
    if ps != [] {
      var init := ps[..|ps| - 1];
      PackLength(init);
      EncodeWidth(ps[|ps| - 1]);
      assert forall i :: 0 <= i < |init| ==> init[i] == ps[i];
    }
  }

  /** Pack as written: a loop that appends each argument's bytes to a stream. */
  method Pack(ps: seq<Primitive>) returns (r: Result<seq<byte>>)
    ensures r == PackOf(ps)
  {
    var out: seq<byte> := [];
    var i := 0;
    while i < |ps|
      invariant 0 <= i <= |ps|
      invariant PackOf(ps[..i]) == Ok(out)
    {
      assert ps[..i + 1][..i] == ps[..i];
      var e := Encode(ps[i]);
      if e.Err? {
        r := Err(e.fault);
        assert PackOf(ps[..i + 1]) == r;
        PackStopsAtFailure(ps, i + 1);
        return;
      }
      out := out + e.value;
      i := i + 1;
    }
    assert ps[..i] == ps;
    r := Ok(out);
  }

  /** Once a prefix fails to pack, the whole sequence fails the same way. */
  lemma {:induction false} PackStopsAtFailure(ps: seq<Primitive>, k: nat)
    requires k <= |ps|
    requires PackOf(ps[..k]).Err?
    ensures PackOf(ps) == PackOf(ps[..k])
    decreases |ps| - k
  {
    if k < |ps| {
      assert ps[..k + 1][..k] == ps[..k];
      PackStopsAtFailure(ps, k + 1);
    } else {
      assert ps[..k] == ps;
    }
  }

  /** Packing one more argument appends its encoding. */
  lemma PackOfSnoc(ps: seq<Primitive>, p: Primitive)
    requires PackOf(ps).Ok? && Encode(p).Ok?
    ensures PackOf(ps + [p]) == Ok(PackOf(ps).value + Encode(p).value)
  {
    assert (ps + [p])[..|ps|] == ps;
  }

  // ---------------------------------------------------------------------------
  // Combine and PartEqual

  function TotalLength(arrays: seq<seq<byte>>): nat {
    if arrays == [] then 0 else TotalLength(arrays[..|arrays| - 1]) + |arrays[|arrays| - 1]|
  }

  /** The in-order concatenation of byte arrays. */
  function Concat(arrays: seq<seq<byte>>): (r: seq<byte>)
    ensures |r| == TotalLength(arrays)
  {
    if arrays == [] then [] else Concat(arrays[..|arrays| - 1]) + arrays[|arrays| - 1]
  }

  lemma ConcatPair(a: seq<byte>, b: seq<byte>)
    ensures Concat([a, b]) == a + b
  {
    assert [a, b][..1] == [a];
    assert [a][..0] == [];
  }

  /** Array.Resize: keep the first `n` bytes, filling any new room with zeros. */
  function Resize(a: seq<byte>, n: nat): (r: seq<byte>)
    ensures |r| == n
    ensures n <= |a| ==> r == a[..n]
    ensures n >= |a| ==> r[..|a|] == a && forall i :: |a| <= i < n ==> r[i] == 0
  {
    if n <= |a| then a[..n] else a + seq(n - |a|, _ => 0 as byte)
  }

  /** Four header bytes and the parameters, grown with zeros to n bytes when shorter. */
  lemma PaddedFrame(header: seq<byte>, params: seq<byte>, f: seq<byte>, n: nat)
    requires |header| == 4
    requires f == if |header + params| < n then Resize(header + params, n) else header + params
    ensures |f| == if 4 + |params| < n then n else 4 + |params|
    ensures f[..4] == header && f[4..4 + |params|] == params
    ensures forall i :: 4 + |params| <= i < |f| ==> f[i] == 0
  {
    var w := header + params;
    assert w[..4] == header && w[4..] == params;
    if |w| < n {
      assert f[..|w|] == w;
      assert f[..4] == w[..4];
      assert f[4..4 + |params|] == w[4..];
    }
  }

  /** Combine as written: grow the result and copy each array behind the previous ones. */
  method Combine(arrays: seq<seq<byte>>) returns (res: seq<byte>)
    ensures res == Concat(arrays)
    ensures |res| == TotalLength(arrays)
  {
    res := [];
    var i := 0;
    while i < |arrays|
      invariant 0 <= i <= |arrays|
      invariant res == Concat(arrays[..i])
    {
      // Array.Resize to |res| + |ar|, then copy ar behind the old bytes
      res := res + arrays[i];
      assert arrays[..i + 1][..i] == arrays[..i];
      i := i + 1;
    }
    assert arrays[..i] == arrays;
  }

  /** PartEqual as written: compare the common prefix byte by byte. */
  method PartEqual(left: seq<byte>, right: seq<byte>) returns (equal: bool)
    ensures equal <==> forall i :: 0 <= i < |left| && i < |right| ==> left[i] == right[i]
  {
    var n := if |left| < |right| then |left| else |right|;
    var i := 0;
    while i < n
      invariant 0 <= i <= n
      invariant forall j :: 0 <= j < i ==> left[j] == right[j]
    {
      if left[i] != right[i] {
        return false;
      }
      i := i + 1;
    }
    return true;
  }

  // ---------------------------------------------------------------------------
  // ToString: BitConverter.ToString of the leading frame

  function HexDigit(n: bv8): char
    requires n < 16
  {
    if n < 10 then ('0' as int + n as int) as char else ('A' as int + n as int - 10) as char
  }

  function HexValue(c: char): int {
    if '0' <= c <= '9' then c as int - '0' as int
    else if 'A' <= c <= 'F' then c as int - 'A' as int + 10
    else -1
  }

  /** The two upper-case hex digits of a byte. */
  function HexPair(b: byte): (s: string)
    ensures |s| == 2
  {
    [HexDigit(b >> 4), HexDigit(b & 0x0F)]
  }

  lemma HexPairRoundTrip(b: byte)
    ensures HexValue(HexPair(b)[0]) * 16 + HexValue(HexPair(b)[1]) == b as int
  {
    assert (b >> 4) as int * 16 + (b & 0x0F) as int == b as int;
  }

  /** "XX-XX-...-XX", as BitConverter.ToString writes it. */
  function Hex(bs: seq<byte>): (s: string)
    ensures |s| == if bs == [] then 0 else 3 * |bs| - 1
  {
    if bs == [] then ""
    else if |bs| == 1 then HexPair(bs[0])
    else HexPair(bs[0]) + "-" + Hex(bs[1..])
  }

  lemma {:induction false} HexAt(bs: seq<byte>, i: nat)
    requires i < |bs|
    ensures |Hex(bs)| == 3 * |bs| - 1
    ensures Hex(bs)[3 * i .. 3 * i + 2] == HexPair(bs[i])
    ensures i + 1 < |bs| ==> Hex(bs)[3 * i + 2] == '-'
  {
    if |bs| > 1 {
      var p := HexPair(bs[0]) + "-";
      var t := Hex(bs[1..]);
      assert Hex(bs) == p + t;
      if i == 0 {
        assert (p + t)[..2] == p[..2];
      } else {
        HexAt(bs[1..], i - 1);
        assert bs[1..][i - 1] == bs[i];
        AppendSlice(p, t, 3 * i, 3 * i + 2);
        if i + 1 < |bs| {
          assert (p + t)[3 * i + 2] == t[3 * (i - 1) + 2];
        }
      }
    }
  }

  /** A slice lying wholly in the second part of a concatenation. */
  lemma AppendSlice<T>(p: seq<T>, t: seq<T>, lo: int, hi: int)
    requires |p| <= lo <= hi <= |p| + |t|
    ensures (p + t)[lo..hi] == t[lo - |p| .. hi - |p|]
  {
  }

  /** The number of bytes ToString shows: a short frame (0x10) is cut at 7 bytes,
      anything else at 20. Reading array[0] of an empty array throws. */
  function ShownLength(a: seq<byte>): Result<nat> {
    if |a| == 0 then Err(IndexOutOfRange)
    else
      var limit := if a[0] == 0x10 then 7 else 20;
      Ok(if |a| < limit then |a| else limit)
  }

  function ToString(a: seq<byte>): Result<string> {
    var len :- ShownLength(a);
    Ok(Hex(a[..len]))
  }

  lemma ToStringCoversFrame(a: seq<byte>)
    requires |a| > 0
    ensures ShownLength(a).Ok?
    ensures var n := ShownLength(a).value;
            n <= |a| && (a[0] == 0x10 ==> n <= 7) && n <= 20
            && (n < |a| ==> n == (if a[0] == 0x10 then 7 else 20))
            && ToString(a) == Ok(Hex(a[..n]))
  {
  }

  // ---------------------------------------------------------------------------
  // Single bits. C# masks an int shift count to its low five bits, so
  // `1 << bit` uses `bit % 32`; bits above 7 fall out of the byte.

  function ShiftCount(bit: int): (s: nat)
    ensures s < 32
  {
    bit % 32
  }

  /** `1 << k` for a shift count k below 8: the byte with only bit k set. */
  function Mask(k: nat): (m: byte)
    requires k < 8
    ensures m != 0
  {
    match k
    case 0 => 0x01 case 1 => 0x02 case 2 => 0x04 case 3 => 0x08
    case 4 => 0x10 case 5 => 0x20 case 6 => 0x40 case _ => 0x80
  }

  function SetBit(b: byte, bit: int, value: bool): (r: Result<byte>)
    ensures r.Ok? <==> bit <= 7
  {
    if bit > 7 then Err(ArgumentOutOfRange)
    else
      var s := ShiftCount(bit);
      if s >= 8 then Ok(b)
      else if value then Ok(b | Mask(s))
      else Ok(b & !Mask(s))
  }

  function IsBitSet(b: byte, bit: int): bool {
    var s := ShiftCount(bit);
    s < 8 && b & Mask(s) != 0
  }

  /** Setting or clearing bit k (0..7) makes IsBitSet report exactly that, and
      leaves every other bit as it was. */
  lemma SetBitThenTest(b: byte, k: int, value: bool)
    requires 0 <= k <= 7
    ensures SetBit(b, k, value).Ok?
    ensures IsBitSet(SetBit(b, k, value).value, k) == value
    ensures forall j :: 0 <= j < 8 && j != k ==> IsBitSet(SetBit(b, k, value).value, j) == IsBitSet(b, j)
  {
    SetBitSame(b, k, value);
    forall j | 0 <= j < 8 && j != k
      ensures IsBitSet(SetBit(b, k, value).value, j) == IsBitSet(b, j)
    {
      SetBitOther(b, k, j, value);
    }
  }

  lemma SetBitSame(b: byte, k: int, value: bool)
    requires 0 <= k <= 7
    ensures SetBit(b, k, value).Ok? && IsBitSet(SetBit(b, k, value).value, k) == value
  {
    SetBitValue(b, k, value);
    IsBitSetMask(SetBit(b, k, value).value, k);
    MaskBit(b, k, value);
  }

  lemma SetBitOther(b: byte, k: int, j: int, value: bool)
    requires 0 <= k <= 7 && 0 <= j < 8 && j != k
    ensures SetBit(b, k, value).Ok? && IsBitSet(SetBit(b, k, value).value, j) == IsBitSet(b, j)
  {
    SetBitValue(b, k, value);
    IsBitSetMask(SetBit(b, k, value).value, j);
    IsBitSetMask(b, j);
    MasksDisjoint(b, j, k, value);
  }

  lemma SetBitValue(b: byte, k: int, value: bool)
    requires 0 <= k <= 7
    ensures SetBit(b, k, value) == Ok(if value then b | Mask(k) else b & !Mask(k))
  {
    assert ShiftCount(k) == k;
  }

  lemma IsBitSetMask(b: byte, k: int)
    requires 0 <= k <= 7
    ensures IsBitSet(b, k) == (b & Mask(k) != 0)
  {
    assert ShiftCount(k) == k;
  }

  lemma MaskBit(b: byte, k: nat, value: bool)
    requires k < 8
    ensures ((if value then b | Mask(k) else b & !Mask(k)) & Mask(k) != 0) == value
  {
  }

  lemma MasksDisjoint(b: byte, j: nat, k: nat, value: bool)
    requires j < 8 && k < 8 && j != k
    ensures ((if value then b | Mask(k) else b & !Mask(k)) & Mask(j) != 0) == (b & Mask(j) != 0)
  {
  }

  // ---------------------------------------------------------------------------
  // 16-bit reads

  function ToUInt16(b: seq<byte>, offset: int): (r: Result<nat>)
    ensures r.Ok? <==> 0 <= offset && offset + 1 < |b|
    ensures r.Ok? ==> r.value == BigEndian(b[offset..offset + 2]) && r.value < 0x1_0000
  {
    if offset < 0 || offset + 1 >= |b| then Err(IndexOutOfRange)
    else
      var v := b[offset] as int * 256 + b[offset + 1] as int;
      assert b[offset..offset + 2] == [b[offset], b[offset + 1]];
      BigEndianPair(b[offset], b[offset + 1]);
      Ok(v)
  }

  /** The 16-bit value read as a C# short: the same bits, two's complement. */
  function ToSigned16(v: nat): (r: int)
    requires v < 0x1_0000
    ensures -0x8000 <= r < 0x8000 && r % 0x1_0000 == v
  {
    if v >= 0x8000 then v - 0x1_0000 else v
  }

  /** A 32-bit value read as a C# int: the same bits, two's complement. */
  function ToSigned32(v: nat): (r: int)
    requires v < 0x1_0000_0000
    ensures -0x8000_0000 <= r < 0x8000_0000 && r % 0x1_0000_0000 == v
  {
    if v >= 0x8000_0000 then v - 0x1_0000_0000 else v
  }

  function ToInt16(b: seq<byte>, offset: int): (r: Result<int>)
    ensures r.Ok? <==> ToUInt16(b, offset).Ok?
    ensures r.Ok? ==> r.value == ToSigned16(ToUInt16(b, offset).value)
  {
    var u :- ToUInt16(b, offset);
    Ok(ToSigned16(u))
  }
}
