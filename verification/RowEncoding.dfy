/** The injective, length-prefixed encoding that every audit digest covers
    (backend/db.py, _digest_payload), and the decoder that inverts it. */
module RowEncoding {
  import opened Common

  const PREFIX_LIMIT := 0x1_0000_0000

  predicate Fits(fields: seq<Bytes>) {
    forall i | 0 <= i < |fields| :: |fields[i]| < PREFIX_LIMIT
  }

  /** struct.pack(">I", n). */
  function BigEndian(n: nat): (b: Bytes)
    requires n < PREFIX_LIMIT
    ensures |b| == 4 && Octets(b)
  {
    var high := n / 256;
    var top := high / 256;
    [top / 256, top % 256, high % 256, n % 256]
  }

  function FromBigEndian(b: Bytes): int
    requires |b| == 4
  {
    256 * (256 * (256 * b[0] + b[1]) + b[2]) + b[3]
  }

  /** The most significant byte comes first. */
  lemma BigEndianIsBigEndian(n: nat)
    requires n < PREFIX_LIMIT
    ensures var b := BigEndian(n); n == 0x100_0000 * b[0] + 0x1_0000 * b[1] + 0x100 * b[2] + b[3]
  {
  }

  lemma BigEndianRoundTrip(n: nat)
    requires n < PREFIX_LIMIT
    ensures FromBigEndian(BigEndian(n)) == n
  {
  }

  lemma FromBigEndianRoundTrip(b: Bytes)
    requires |b| == 4 && Octets(b)
    ensures 0 <= FromBigEndian(b) < PREFIX_LIMIT && BigEndian(FromBigEndian(b)) == b
  {
    var n := FromBigEndian(b);
    var high := 256 * (256 * b[0] + b[1]) + b[2];
    assert n / 256 == high && n % 256 == b[3];
    assert high / 256 == 256 * b[0] + b[1] && high % 256 == b[2];
  }

  function Encode(fields: seq<Bytes>): Bytes
    requires Fits(fields)
  {
    if fields == [] then []
    else BigEndian(|fields[0]|) + fields[0] + Encode(fields[1..])
  }

  /** Reads one prefixed field after another; None when the bytes stop short. */
  function Decode(b: Bytes): (r: Option<seq<Bytes>>)
    decreases |b|
  {
    if b == [] then Some([])
    else if |b| < 4 || !(0 <= FromBigEndian(b[..4]) <= |b| - 4) then None
    else
      var n := FromBigEndian(b[..4]);
      match Decode(b[4 + n..])
      case None => None
      case Some(rest) => Some([b[4..4 + n]] + rest)
  }

  /** Decoding recovers the exact field list. */
  lemma {:induction false} DecodeEncode(fields: seq<Bytes>)
    requires Fits(fields)
    ensures Decode(Encode(fields)) == Some(fields)
  {
    if fields != [] {
      var b := Encode(fields);
      var n := |fields[0]|;
      BigEndianRoundTrip(n);
      assert b[..4] == BigEndian(n);
      assert b[4..4 + n] == fields[0];
      assert b[4 + n..] == Encode(fields[1..]);
      DecodeEncode(fields[1..]);
      assert [fields[0]] + fields[1..] == fields;
    }
  }

  /** Nothing but an encoding decodes: the two functions are inverse both ways. */
  lemma {:induction false} EncodeDecode(b: Bytes)
    requires Octets(b) && Decode(b).Some?
    ensures Fits(Decode(b).value) && Encode(Decode(b).value) == b
    decreases |b|
  {
    hide FromBigEndian, BigEndian;
    if b != [] {
      var head := b[..4];
      FromBigEndianRoundTrip(head);
      var n := FromBigEndian(head);
      var field, rest := b[4..4 + n], b[4 + n..];
      EncodeDecode(rest);
      var fields := Decode(b).value;
      assert fields[0] == field && fields[1..] == Decode(rest).value;
      assert b == head + field + rest;
    }
  }

  /** No field value can be confused with a field boundary or with another field count. */
  lemma EncodeInjective(a: seq<Bytes>, b: seq<Bytes>)
    requires Fits(a) && Fits(b) && Encode(a) == Encode(b)
    ensures a == b
  {
    DecodeEncode(a);
    DecodeEncode(b);
  }

  lemma {:induction false} EncodeAppend(a: seq<Bytes>, b: seq<Bytes>)
    requires Fits(a) && Fits(b)
    ensures Encode(a + b) == Encode(a) + Encode(b)
  {
    if a == [] {
      assert a + b == b;
    } else {
      assert (a + b)[1..] == a[1..] + b;
      EncodeAppend(a[1..], b);
    }
  }

  /** Bytes in, bytes out. */
  lemma {:induction false} EncodeOctets(fields: seq<Bytes>)
    requires Fits(fields) && forall i | 0 <= i < |fields| :: Octets(fields[i])
    ensures Octets(Encode(fields))
  {
    hide BigEndian;
    if fields != [] { EncodeOctets(fields[1..]); }
  }

  /** `f or ""`, field by field. */
  function OrEmpty(fields: seq<Option<Bytes>>): (r: seq<Bytes>)
    ensures |r| == |fields|
    ensures forall i | 0 <= i < |fields| :: r[i] == fields[i].GetOr([])
  {
    seq(|fields|, i requires 0 <= i < |fields| => fields[i].GetOr([]))
  }

  /** None stands for the struct.error that a field of 2^32 bytes or more raises. */
  method DigestPayload(fields: seq<Option<Bytes>>) returns (payload: Option<Bytes>)
    ensures payload.Some? <==> Fits(OrEmpty(fields))
    ensures payload.Some? ==>
              payload.value == Encode(OrEmpty(fields)) && Decode(payload.value) == Some(OrEmpty(fields))
    ensures payload.Some? && (forall i | 0 <= i < |fields| :: Octets(fields[i].GetOr([]))) ==> Octets(payload.value)
  {
    hide Decode, BigEndian;
    ghost var wanted := OrEmpty(fields);
    var out: Bytes := [];
    for k := 0 to |fields|
      invariant Fits(wanted[..k]) && out == Encode(wanted[..k])
    {
      var b := fields[k].GetOr([]);
      if |b| >= PREFIX_LIMIT {
        return None;
      }
      EncodeAppend(wanted[..k], [b]);
      assert wanted[..k + 1] == wanted[..k] + [b];
      assert Encode([b]) == BigEndian(|b|) + b + Encode([]);
      out := out + BigEndian(|b|);
      out := out + b;
    }
    assert wanted[..|fields|] == wanted;
    DecodeEncode(wanted);
    if forall i | 0 <= i < |wanted| :: Octets(wanted[i]) { EncodeOctets(wanted); }
    return Some(out);
  }
}
