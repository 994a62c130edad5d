/** The canonical form: big-endian integers, one-byte booleans and option tags,
    counted vectors, length-prefixed bytes.

    A `Put` writes a value in front of a tail and a `Get` reads one off the
    front.  The law of a pair is that Get undoes Put, and that whatever Get
    accepts is what Put writes: one encoding for each value. */
module Codec {
  import opened Wrappers
  import opened Bytes

  const CHUNK_BYTES_MAX := 1024 * 1024
  const BATCH_ENTRIES_MIN := 1
  const BATCH_ENTRIES_MAX := 16
  const BATCH_PAYLOAD_MAX := 4 * 1024 * 1024

  datatype Parse<+T> = Fail | Got(value: T, rest: seq<byte>)
  {
    predicate IsFailure() { Fail? }

    function PropagateFailure<U>(): Parse<U>
      requires IsFailure()
    {
      Fail
    }

    function Extract(): Parse<T>
      requires !IsFailure()
    {
      this
    }
  }

  /** Bytes whose length a u32 can carry. */
  type Blob = s: seq<byte> | |s| < 0x1_0000_0000
  type Verifier = s: seq<byte> | |s| == 8 witness seq(8, _ => 0)
  type Certificate = s: seq<byte> | |s| == 32 witness seq(32, _ => 0)

  datatype Guard = Guard(generation: u32, writer: u32, neverWritten: bool)
  datatype Owner = Owner(cohort: u64, writer: u32, coId: u32)
  datatype OpKey = OpKey(origin: Uuid, sequence: u64, ordinal: u32)
  datatype Checksum = Checksum(alg: u32, digest: Blob)
  datatype ObjKey = ObjKey(exportUuid: Uuid, objectUuid: Uuid)

  // ----- integers, booleans and raw bytes

  function PutRaw(b: seq<byte>, t: seq<byte>): seq<byte> { b + t }

  function GetRaw(n: nat, s: seq<byte>): Parse<seq<byte>> {
    if |s| < n then Fail else Got(s[..n], s[n..])
  }

  function PutU8(v: byte, t: seq<byte>): seq<byte> { EncU8(v) + t }

  function GetU8(s: seq<byte>): Parse<byte> {
    if |s| < 1 then Fail else Got(s[0], s[1..])
  }

  function PutU16(v: u16, t: seq<byte>): seq<byte> { EncU16(v) + t }

  function GetU16(s: seq<byte>): Parse<u16> {
    if |s| < 2 then Fail else Got(DecU16(s[..2]), s[2..])
  }

  function PutU32(v: u32, t: seq<byte>): seq<byte> { EncU32(v) + t }

  function GetU32(s: seq<byte>): Parse<u32> {
    if |s| < 4 then Fail else Got(DecU32(s[..4]), s[4..])
  }

  function PutU64(v: u64, t: seq<byte>): seq<byte> { EncU64(v) + t }

  function GetU64(s: seq<byte>): Parse<u64> {
    if |s| < 8 then Fail else Got(DecU64(s[..8]), s[8..])
  }

  function PutBool(v: bool, t: seq<byte>): seq<byte> { PutU8(if v then 1 else 0, t) }

  function GetBool(s: seq<byte>): Parse<bool> {
    var b :- GetU8(s);
    if b.value > 1 then Fail else Got(b.value == 1, b.rest)
  }

  function PutBytes(b: Blob, t: seq<byte>): seq<byte> { PutU32(|b|, PutRaw(b, t)) }

  function GetBytes(max: nat, s: seq<byte>): Parse<Blob> {
    var n :- GetU32(s);
    if n.value > max then Fail
    else
      var b :- GetRaw(n.value, n.rest);
      Got(b.value, b.rest)
  }

  lemma RawLaws()
    ensures forall b: seq<byte>, t: seq<byte> {:trigger PutRaw(b, t)} :: GetRaw(|b|, PutRaw(b, t)) == Got(b, t)
    ensures forall b: seq<byte>, t: seq<byte> {:trigger PutRaw(b, t)} :: |PutRaw(b, t)| == |b| + |t|
    ensures forall n: nat, s: seq<byte> {:trigger GetRaw(n, s)} :: GetRaw(n, s).Got?
              ==> |GetRaw(n, s).value| == n && PutRaw(GetRaw(n, s).value, GetRaw(n, s).rest) == s
  {
  }

  lemma U8Laws()
    ensures forall v: byte, t: seq<byte> {:trigger PutU8(v, t)} :: GetU8(PutU8(v, t)) == Got(v, t)
    ensures forall v: byte, t: seq<byte> {:trigger PutU8(v, t)} :: |PutU8(v, t)| == 1 + |t|
    ensures forall s: seq<byte> {:trigger GetU8(s)} :: GetU8(s).Got? ==> PutU8(GetU8(s).value, GetU8(s).rest) == s
  {
  }

  lemma U16Laws()
    ensures forall v: u16, t: seq<byte> {:trigger PutU16(v, t)} :: GetU16(PutU16(v, t)) == Got(v, t)
    ensures forall v: u16, t: seq<byte> {:trigger PutU16(v, t)} :: |PutU16(v, t)| == 2 + |t|
    ensures forall s: seq<byte> {:trigger GetU16(s)} :: GetU16(s).Got? ==> PutU16(GetU16(s).value, GetU16(s).rest) == s
  {
    hide EncU16, DecU16;
    forall v: u16, t: seq<byte> ensures GetU16(PutU16(v, t)) == Got(v, t) {
      U16RoundTrip(v, EncU16(v));
      assert PutU16(v, t)[..2] == EncU16(v);
    }
    forall s: seq<byte> | GetU16(s).Got? ensures PutU16(GetU16(s).value, GetU16(s).rest) == s {
      U16RoundTrip(0, s[..2]);
    }
  }

  lemma U32Laws()
    ensures forall v: u32, t: seq<byte> {:trigger PutU32(v, t)} :: GetU32(PutU32(v, t)) == Got(v, t)
    ensures forall v: u32, t: seq<byte> {:trigger PutU32(v, t)} :: |PutU32(v, t)| == 4 + |t|
    ensures forall s: seq<byte> {:trigger GetU32(s)} :: GetU32(s).Got? ==> PutU32(GetU32(s).value, GetU32(s).rest) == s
  {
    hide EncU32, DecU32;
    forall v: u32, t: seq<byte> ensures GetU32(PutU32(v, t)) == Got(v, t) {
      U32RoundTrip(v, EncU32(v));
      assert PutU32(v, t)[..4] == EncU32(v);
    }
    forall s: seq<byte> | GetU32(s).Got? ensures PutU32(GetU32(s).value, GetU32(s).rest) == s {
      U32RoundTrip(0, s[..4]);
    }
  }

  lemma U64Laws()
    ensures forall v: u64, t: seq<byte> {:trigger PutU64(v, t)} :: GetU64(PutU64(v, t)) == Got(v, t)
    ensures forall v: u64, t: seq<byte> {:trigger PutU64(v, t)} :: |PutU64(v, t)| == 8 + |t|
    ensures forall s: seq<byte> {:trigger GetU64(s)} :: GetU64(s).Got? ==> PutU64(GetU64(s).value, GetU64(s).rest) == s
  {
    hide EncU64, DecU64;
    forall v: u64, t: seq<byte> ensures GetU64(PutU64(v, t)) == Got(v, t) {
      U64RoundTrip(v, EncU64(v));
      assert PutU64(v, t)[..8] == EncU64(v);
    }
    forall s: seq<byte> | GetU64(s).Got? ensures PutU64(GetU64(s).value, GetU64(s).rest) == s {
      U64RoundTrip(0, s[..8]);
    }
  }

  lemma BoolLaws()
    ensures forall v: bool, t: seq<byte> {:trigger PutBool(v, t)} :: GetBool(PutBool(v, t)) == Got(v, t)
    ensures forall v: bool, t: seq<byte> {:trigger PutBool(v, t)} :: |PutBool(v, t)| == 1 + |t|
    ensures forall s: seq<byte> {:trigger GetBool(s)} :: GetBool(s).Got? ==> PutBool(GetBool(s).value, GetBool(s).rest) == s
  {
    hide PutU8, GetU8;
    U8Laws();
  }

  lemma BytesLaws()
    ensures forall max: nat, b: Blob, t: seq<byte> {:trigger GetBytes(max, PutBytes(b, t))}
              :: |b| <= max ==> GetBytes(max, PutBytes(b, t)) == Got(b, t)
    ensures forall b: Blob, t: seq<byte> {:trigger PutBytes(b, t)} :: |PutBytes(b, t)| == 4 + |b| + |t|
    ensures forall max: nat, s: seq<byte> {:trigger GetBytes(max, s)} :: GetBytes(max, s).Got?
              ==> |GetBytes(max, s).value| <= max && PutBytes(GetBytes(max, s).value, GetBytes(max, s).rest) == s
  {
    hide PutU32, GetU32, PutRaw, GetRaw;
    U32Laws();
    RawLaws();
  }

  /** The laws of every primitive form. */
  lemma Primitives()
    ensures forall v: u32, t: seq<byte> {:trigger PutU32(v, t)} :: GetU32(PutU32(v, t)) == Got(v, t)
    ensures forall v: u32, t: seq<byte> {:trigger PutU32(v, t)} :: |PutU32(v, t)| == 4 + |t|
    ensures forall s: seq<byte> {:trigger GetU32(s)} :: GetU32(s).Got? ==> PutU32(GetU32(s).value, GetU32(s).rest) == s
    ensures forall v: u64, t: seq<byte> {:trigger PutU64(v, t)} :: GetU64(PutU64(v, t)) == Got(v, t)
    ensures forall v: u64, t: seq<byte> {:trigger PutU64(v, t)} :: |PutU64(v, t)| == 8 + |t|
    ensures forall s: seq<byte> {:trigger GetU64(s)} :: GetU64(s).Got? ==> PutU64(GetU64(s).value, GetU64(s).rest) == s
    ensures forall v: bool, t: seq<byte> {:trigger PutBool(v, t)} :: GetBool(PutBool(v, t)) == Got(v, t)
    ensures forall v: bool, t: seq<byte> {:trigger PutBool(v, t)} :: |PutBool(v, t)| == 1 + |t|
    ensures forall s: seq<byte> {:trigger GetBool(s)} :: GetBool(s).Got? ==> PutBool(GetBool(s).value, GetBool(s).rest) == s
    ensures forall b: seq<byte>, t: seq<byte> {:trigger PutRaw(b, t)} :: GetRaw(|b|, PutRaw(b, t)) == Got(b, t)
    ensures forall b: seq<byte>, t: seq<byte> {:trigger PutRaw(b, t)} :: |PutRaw(b, t)| == |b| + |t|
    ensures forall n: nat, s: seq<byte> {:trigger GetRaw(n, s)} :: GetRaw(n, s).Got?
              ==> |GetRaw(n, s).value| == n && PutRaw(GetRaw(n, s).value, GetRaw(n, s).rest) == s
  {
    hide *;
    U32Laws(); U64Laws(); BoolLaws(); RawLaws();
  }

  // ----- records

  function PutGuard(g: Guard, t: seq<byte>): seq<byte> {
    PutU32(g.generation, PutU32(g.writer, PutBool(g.neverWritten, t)))
  }

  function GetGuard(s: seq<byte>): Parse<Guard> {
    var a :- GetU32(s);
    var b :- GetU32(a.rest);
    var c :- GetBool(b.rest);
    Got(Guard(a.value, b.value, c.value), c.rest)
  }

  function PutOwner(o: Owner, t: seq<byte>): seq<byte> {
    PutU64(o.cohort, PutU32(o.writer, PutU32(o.coId, t)))
  }

  function GetOwner(s: seq<byte>): Parse<Owner> {
    var a :- GetU64(s);
    var b :- GetU32(a.rest);
    var c :- GetU32(b.rest);
    Got(Owner(a.value, b.value, c.value), c.rest)
  }

  function PutOpKey(k: OpKey, t: seq<byte>): seq<byte> {
    PutRaw(k.origin, PutU64(k.sequence, PutU32(k.ordinal, t)))
  }


  function GetOpKey(s: seq<byte>): Parse<OpKey> {
    var a :- GetRaw(16, s);
    var b :- GetU64(a.rest);
    var c :- GetU32(b.rest);
    Got(OpKey(a.value, b.value, c.value), c.rest)
  }

  function PutChecksum(k: Checksum, t: seq<byte>): seq<byte> {
    PutU32(k.alg, PutBytes(k.digest, t))
  }

  function GetChecksum(s: seq<byte>): Parse<Checksum> {
    var a :- GetU32(s);
    var b :- GetBytes(4, a.rest);
    Got(Checksum(a.value, b.value), b.rest)
  }

  function PutObjKey(k: ObjKey, t: seq<byte>): seq<byte> {
    PutRaw(k.exportUuid, PutRaw(k.objectUuid, t))
  }

  function GetObjKey(s: seq<byte>): Parse<ObjKey> {
    var a :- GetRaw(16, s);
    var b :- GetRaw(16, a.rest);
    Got(ObjKey(a.value, b.value), b.rest)
  }

  /** The laws of the shared records. */
  lemma Records()
    ensures forall g: Guard, t: seq<byte> {:trigger PutGuard(g, t)} :: GetGuard(PutGuard(g, t)) == Got(g, t)
    ensures forall g: Guard, t: seq<byte> {:trigger PutGuard(g, t)} :: |PutGuard(g, t)| == 9 + |t|
    ensures forall s: seq<byte> {:trigger GetGuard(s)} :: GetGuard(s).Got?
              ==> PutGuard(GetGuard(s).value, GetGuard(s).rest) == s
    ensures forall o: Owner, t: seq<byte> {:trigger PutOwner(o, t)} :: GetOwner(PutOwner(o, t)) == Got(o, t)
    ensures forall o: Owner, t: seq<byte> {:trigger PutOwner(o, t)} :: |PutOwner(o, t)| == 16 + |t|
    ensures forall s: seq<byte> {:trigger GetOwner(s)} :: GetOwner(s).Got?
              ==> PutOwner(GetOwner(s).value, GetOwner(s).rest) == s
    ensures forall k: OpKey, t: seq<byte> {:trigger PutOpKey(k, t)} :: GetOpKey(PutOpKey(k, t)) == Got(k, t)
    ensures forall k: OpKey, t: seq<byte> {:trigger PutOpKey(k, t)} :: |PutOpKey(k, t)| == 28 + |t|
    ensures forall s: seq<byte> {:trigger GetOpKey(s)} :: GetOpKey(s).Got?
              ==> PutOpKey(GetOpKey(s).value, GetOpKey(s).rest) == s
    ensures forall k: Checksum, t: seq<byte> {:trigger PutChecksum(k, t)} :: |k.digest| <= 4 ==> GetChecksum(PutChecksum(k, t)) == Got(k, t)
    ensures forall k: Checksum, t: seq<byte> {:trigger PutChecksum(k, t)} :: |PutChecksum(k, t)| == 8 + |k.digest| + |t|
    ensures forall s: seq<byte> {:trigger GetChecksum(s)} :: GetChecksum(s).Got?
              ==> |GetChecksum(s).value.digest| <= 4 && PutChecksum(GetChecksum(s).value, GetChecksum(s).rest) == s
    ensures forall k: ObjKey, t: seq<byte> {:trigger PutObjKey(k, t)} :: GetObjKey(PutObjKey(k, t)) == Got(k, t)
    ensures forall k: ObjKey, t: seq<byte> {:trigger PutObjKey(k, t)} :: |PutObjKey(k, t)| == 32 + |t|
    ensures forall s: seq<byte> {:trigger GetObjKey(s)} :: GetObjKey(s).Got?
              ==> PutObjKey(GetObjKey(s).value, GetObjKey(s).rest) == s
  {
    hide PutU32, GetU32, PutU64, GetU64, PutBool, GetBool, PutRaw, GetRaw, PutBytes, GetBytes;
    Primitives();
    BytesLaws();
  }

  // ----- options: a tag byte, then the value when it is present

  function PutOptU64(v: Option<u64>, t: seq<byte>): seq<byte> {
    if v.None? then PutBool(false, t) else PutBool(true, PutU64(v.value, t))
  }

  function GetOptU64(s: seq<byte>): Parse<Option<u64>> {
    var p :- GetBool(s);
    if !p.value then Got(None, p.rest)
    else
      var v :- GetU64(p.rest);
      Got(Some(v.value), v.rest)
  }

  function PutOptU32(v: Option<u32>, t: seq<byte>): seq<byte> {
    if v.None? then PutBool(false, t) else PutBool(true, PutU32(v.value, t))
  }

  function GetOptU32(s: seq<byte>): Parse<Option<u32>> {
    var p :- GetBool(s);
    if !p.value then Got(None, p.rest)
    else
      var v :- GetU32(p.rest);
      Got(Some(v.value), v.rest)
  }

  function PutOptGuard(v: Option<Guard>, t: seq<byte>): seq<byte> {
    if v.None? then PutBool(false, t) else PutBool(true, PutGuard(v.value, t))
  }

  function GetOptGuard(s: seq<byte>): Parse<Option<Guard>> {
    var p :- GetBool(s);
    if !p.value then Got(None, p.rest)
    else
      var v :- GetGuard(p.rest);
      Got(Some(v.value), v.rest)
  }

  function PutOptVerifier(v: Option<Verifier>, t: seq<byte>): seq<byte> {
    if v.None? then PutBool(false, t) else PutBool(true, PutRaw(v.value, t))
  }

  function GetOptVerifier(s: seq<byte>): Parse<Option<Verifier>> {
    var p :- GetBool(s);
    if !p.value then Got(None, p.rest)
    else
      var v :- GetRaw(8, p.rest);
      Got(Some(v.value), v.rest)
  }

  function PutOptCertificate(v: Option<Certificate>, t: seq<byte>): seq<byte> {
    if v.None? then PutBool(false, t) else PutBool(true, PutRaw(v.value, t))
  }

  function GetOptCertificate(s: seq<byte>): Parse<Option<Certificate>> {
    var p :- GetBool(s);
    if !p.value then Got(None, p.rest)
    else
      var v :- GetRaw(32, p.rest);
      Got(Some(v.value), v.rest)
  }

  /** The laws of the options. */
  lemma Options()
    ensures forall v: Option<u64>, t: seq<byte> {:trigger PutOptU64(v, t)} :: GetOptU64(PutOptU64(v, t)) == Got(v, t)
    ensures forall v: Option<u64>, t: seq<byte> {:trigger PutOptU64(v, t)} :: |PutOptU64(v, t)| == (if v.None? then 1 else 9) + |t|
    ensures forall s: seq<byte> {:trigger GetOptU64(s)} :: GetOptU64(s).Got?
              ==> PutOptU64(GetOptU64(s).value, GetOptU64(s).rest) == s
    ensures forall v: Option<u32>, t: seq<byte> {:trigger PutOptU32(v, t)} :: GetOptU32(PutOptU32(v, t)) == Got(v, t)
    ensures forall v: Option<u32>, t: seq<byte> {:trigger PutOptU32(v, t)} :: |PutOptU32(v, t)| == (if v.None? then 1 else 5) + |t|
    ensures forall s: seq<byte> {:trigger GetOptU32(s)} :: GetOptU32(s).Got?
              ==> PutOptU32(GetOptU32(s).value, GetOptU32(s).rest) == s
    ensures forall v: Option<Verifier>, t: seq<byte> {:trigger PutOptVerifier(v, t)} :: GetOptVerifier(PutOptVerifier(v, t)) == Got(v, t)
    ensures forall v: Option<Verifier>, t: seq<byte> {:trigger PutOptVerifier(v, t)} :: |PutOptVerifier(v, t)| == (if v.None? then 1 else 9) + |t|
    ensures forall s: seq<byte> {:trigger GetOptVerifier(s)} :: GetOptVerifier(s).Got?
              ==> PutOptVerifier(GetOptVerifier(s).value, GetOptVerifier(s).rest) == s
    ensures forall v: Option<Certificate>, t: seq<byte> {:trigger PutOptCertificate(v, t)} :: GetOptCertificate(PutOptCertificate(v, t)) == Got(v, t)
    ensures forall v: Option<Certificate>, t: seq<byte> {:trigger PutOptCertificate(v, t)} :: |PutOptCertificate(v, t)| == (if v.None? then 1 else 33) + |t|
    ensures forall s: seq<byte> {:trigger GetOptCertificate(s)} :: GetOptCertificate(s).Got?
              ==> PutOptCertificate(GetOptCertificate(s).value, GetOptCertificate(s).rest) == s
  {
    hide PutU32, GetU32, PutU64, GetU64, PutBool, GetBool, PutRaw, GetRaw;
    Primitives();
  }

  function OptSize(v: Option<u64>): nat { if v.None? then 1 else 9 }

  lemma OptGuardLaws()
    ensures forall v: Option<Guard>, t: seq<byte> {:trigger PutOptGuard(v, t)} :: GetOptGuard(PutOptGuard(v, t)) == Got(v, t)
    ensures forall v: Option<Guard>, t: seq<byte> {:trigger PutOptGuard(v, t)} :: |PutOptGuard(v, t)| == (if v.None? then 1 else 10) + |t|
    ensures forall s: seq<byte> {:trigger GetOptGuard(s)} :: GetOptGuard(s).Got?
              ==> PutOptGuard(GetOptGuard(s).value, GetOptGuard(s).rest) == s
  {
    hide PutBool, GetBool, PutGuard, GetGuard;
    BoolLaws();
    Records();
  }

  // ----- counted vectors

  predicate Always<T>(x: T) { true }

  ghost predicate Lawful<T(!new)>(ok: T -> bool, put: (T, seq<byte>) -> seq<byte>, get: seq<byte> -> Parse<T>) {
    && (forall v: T, t: seq<byte> {:trigger put(v, t)} :: ok(v) ==> get(put(v, t)) == Got(v, t))
    && (forall s: seq<byte> {:trigger get(s)} :: get(s).Got? ==> ok(get(s).value) && put(get(s).value, get(s).rest) == s)
  }

  function PutVec<T>(put: (T, seq<byte>) -> seq<byte>, xs: seq<T>, t: seq<byte>): seq<byte> {
    if xs == [] then t else put(xs[0], PutVec(put, xs[1..], t))
  }

  function GetVec<T>(get: seq<byte> -> Parse<T>, n: nat, s: seq<byte>): Parse<seq<T>> {
    if n == 0 then Got([], s)
    else
      var x :- get(s);
      var xs :- GetVec(get, n - 1, x.rest);
      Got([x.value] + xs.value, xs.rest)
  }

  ghost predicate AllOk<T>(ok: T -> bool, xs: seq<T>) {
    forall i :: 0 <= i < |xs| ==> ok(xs[i])
  }

  lemma {:induction false} GetOfPutVec<T(!new)>(ok: T -> bool, put: (T, seq<byte>) -> seq<byte>, get: seq<byte> -> Parse<T>, xs: seq<T>, t: seq<byte>)
    requires Lawful(ok, put, get) && AllOk(ok, xs)
    ensures GetVec(get, |xs|, PutVec(put, xs, t)) == Got(xs, t)
  {
    if xs != [] {
      GetOfPutVec(ok, put, get, xs[1..], t);
      assert ok(xs[0]);
      assert xs == [xs[0]] + xs[1..];
    }
  }

  lemma {:induction false} PutOfGetVec<T(!new)>(ok: T -> bool, put: (T, seq<byte>) -> seq<byte>, get: seq<byte> -> Parse<T>, n: nat, s: seq<byte>)
    requires Lawful(ok, put, get) && GetVec(get, n, s).Got?
    ensures var p := GetVec(get, n, s);
            |p.value| == n && AllOk(ok, p.value) && PutVec(put, p.value, p.rest) == s
  {
    if n > 0 {
      var x := get(s);
      PutOfGetVec(ok, put, get, n - 1, x.rest);
      var xs := GetVec(get, n - 1, x.rest);
      assert ([x.value] + xs.value)[1..] == xs.value;
    }
  }

  function Total<T>(size: T -> nat, xs: seq<T>): nat {
    if xs == [] then 0 else size(xs[0]) + Total(size, xs[1..])
  }

  lemma {:induction false} VecSize<T(!new)>(size: T -> nat, put: (T, seq<byte>) -> seq<byte>, xs: seq<T>, t: seq<byte>)
    requires forall v: T, u: seq<byte> {:trigger put(v, u)} :: |put(v, u)| == size(v) + |u|
    ensures |PutVec(put, xs, t)| == Total(size, xs) + |t|
  {
    if xs != [] {
      VecSize(size, put, xs[1..], t);
    }
  }

  // ----- vectors of handles

  lemma HandleLaws()
    ensures Lawful(Always<u64>, PutU64, GetU64)
  {
    hide PutU64, GetU64;
    U64Laws();
  }

  function HandleSize(v: u64): nat { 8 }

  lemma {:induction false} HandleTotal(txns: seq<u64>)
    ensures Total(HandleSize, txns) == 8 * |txns|
  {
    if txns != [] {
      HandleTotal(txns[1..]);
    }
  }
}
