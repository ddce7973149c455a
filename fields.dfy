/** The fixed-width wire fields the OMCI layouts are built from: ByteField,
    ShortField, IntField (unsigned big-endian integers of 1, 2 and 4 bytes) and
    StrFixedLenField (a byte string of a declared length). These belong to the
    packet library the source uses; they are modelled here as plain codecs. */
module Fields {
  import opened Wrappers

  type byte = x: int | 0 <= x < 256

  datatype Codec = ByteField | ShortField | IntField | StrFixedLenField(length: nat)

  /** A field value: a Python int or a byte string. */
  datatype Value = Int(n: int) | Str(bytes: seq<byte>)

  function Width(c: Codec): nat
  {
    match c
    case ByteField => 1
    case ShortField => 2
    case IntField => 4
    case StrFixedLenField(length) => length
  }

  /** 256 ** w */
  function Pow256(w: nat): (r: nat)
    ensures r >= 1
  {
    if w == 0 then 1 else 256 * Pow256(w - 1)
  }

  /** The value is one the codec encodes without loss. */
  predicate Fits(c: Codec, v: Value)
  {
    match c
    case StrFixedLenField(length) => v.Str? && |v.bytes| == length
    case _ => v.Int? && 0 <= v.n < Pow256(Width(c))
  }

  /** The w low-order bytes of n, most significant first. */
  function ToBigEndian(n: nat, w: nat): (r: seq<byte>)
    ensures |r| == w
  {
    if w == 0 then [] else ToBigEndian(n / 256, w - 1) + [n % 256]
  }

  function FromBigEndian(s: seq<byte>): nat
  {
    if s == [] then 0 else FromBigEndian(s[..|s| - 1]) * 256 + s[|s| - 1]
  }

  function Zeros(n: nat): seq<byte>
  {
    seq(n, _ => 0)
  }

  /** Encoding of one value. An integer that does not fit the width, or a value
      of the wrong kind, makes struct.pack raise: None. A byte string is padded
      with zero bytes or cut to the declared length, as struct.pack("<n>s")
      does. */
  function Encode(c: Codec, v: Value): (r: Option<seq<byte>>)
    ensures r.Some? ==> |r.value| == Width(c)
  {
    match c
    case StrFixedLenField(length) =>
      if !v.Str? then None
      else if |v.bytes| >= length then Some(v.bytes[..length])
      else Some(v.bytes + Zeros(length - |v.bytes|))
    case _ =>
      if v.Int? && 0 <= v.n < Pow256(Width(c)) then Some(ToBigEndian(v.n, Width(c))) else None
  }

  /** Decoding one value from the front of s; the rest of s is returned.
      Fewer bytes than the width: None. */
  function Decode(c: Codec, s: seq<byte>): (r: Option<(Value, seq<byte>)>)
    ensures r.Some? <==> |s| >= Width(c)
    ensures r.Some? ==> r.value.1 == s[Width(c)..]
  {
    if |s| < Width(c) then None
    else
      var raw := s[..Width(c)];
      match c
      case StrFixedLenField(_) => Some((Str(raw), s[Width(c)..]))
      case _ => Some((Int(FromBigEndian(raw)), s[Width(c)..]))
  }

  lemma {:induction false} BigEndianRoundTrip(n: nat, w: nat)
    requires n < Pow256(w)
    ensures FromBigEndian(ToBigEndian(n, w)) == n
  {
    if w > 0 {
      var s := ToBigEndian(n, w);
      assert s[..|s| - 1] == ToBigEndian(n / 256, w - 1);
      BigEndianRoundTrip(n / 256, w - 1);
    }
  }

  lemma {:induction false} FromBigEndianBound(s: seq<byte>)
    ensures FromBigEndian(s) < Pow256(|s|)
    decreases |s|
  {
    if s != [] {
      var p := s[..|s| - 1];
      FromBigEndianBound(p);
      assert FromBigEndian(p) <= Pow256(|p|) - 1;
      assert FromBigEndian(p) * 256 <= Pow256(|p|) * 256 - 256;
    }
  }

  lemma {:induction false} BigEndianOfDecoded(s: seq<byte>)
    ensures ToBigEndian(FromBigEndian(s), |s|) == s
    decreases |s|
  {
    if s != [] {
      var p := s[..|s| - 1];
      var n := FromBigEndian(s);
      assert n / 256 == FromBigEndian(p) && n % 256 == s[|s| - 1];
      BigEndianOfDecoded(p);
      assert s == p + [s[|s| - 1]];
    }
  }

  /** Decoding an encoding gives back the value and leaves what followed. */
  lemma EncodeDecode(c: Codec, v: Value, rest: seq<byte>)
    requires Fits(c, v)
    ensures Encode(c, v).Some?
    ensures Decode(c, Encode(c, v).value + rest) == Some((v, rest))
  {
    var e := Encode(c, v).value;
    assert (e + rest)[..Width(c)] == e;
    assert (e + rest)[Width(c)..] == rest;
    if c.StrFixedLenField? {
      assert e == v.bytes;
    } else {
      BigEndianRoundTrip(v.n, Width(c));
    }
  }

  /** Whatever decodes is a fitting value whose encoding is what was read. */
  lemma DecodeEncode(c: Codec, s: seq<byte>)
    requires Decode(c, s).Some?
    ensures Fits(c, Decode(c, s).value.0)
    ensures Encode(c, Decode(c, s).value.0) == Some(s[..Width(c)])
  {
    var raw := s[..Width(c)];
    if c.StrFixedLenField? {
      assert raw[..c.length] == raw;
    } else {
      FromBigEndianBound(raw);
      BigEndianOfDecoded(raw);
    }
  }
}
