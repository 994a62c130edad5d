/** The bounded cursor every encoder and decoder moves.  `bad` is sticky: once a
    write has run out of room or a read has met something it cannot accept,
    every later call does nothing.  An encoder either appends exactly the
    canonical bytes of its value or leaves the cursor bad, and it leaves it bad
    exactly when those bytes do not fit. */
module Cursors {
  import opened Wrappers
  import opened Bytes
  import opened Codec

  class Cursor {
    const buf: array<byte>
    var len: nat
    var bad: bool

    ghost predicate Valid()
      reads this
    {
      len <= buf.Length
    }

    ghost function Written(): seq<byte>
      requires Valid()
      reads this, buf
    {
      buf[..len]
    }

    ghost function Rest(): seq<byte>
      requires Valid()
      reads this, buf
    {
      buf[len..]
    }

    constructor (buf: array<byte>)
      ensures Valid() && this.buf == buf && len == 0 && !bad
    {
      this.buf := buf;
      len := 0;
      bad := false;
    }

    /** A cursor that reads from an offset on. */
    constructor At(buf: array<byte>, at: nat)
      requires at <= buf.Length
      ensures Valid() && this.buf == buf && len == at && !bad
    {
      this.buf := buf;
      len := at;
      bad := false;
    }

    /** Claim the next n bytes, or go bad. */
    method Take(n: nat) returns (at: Option<nat>)
      requires Valid()
      modifies this
      ensures Valid()
      ensures bad <==> old(bad) || n > buf.Length - old(len)
      ensures bad ==> at == None && len == old(len)
      ensures !bad ==> at == Some(old(len)) && len == old(len) + n
    {
      if bad { return None; }
      if n > buf.Length - len {
        bad := true;
        return None;
      }
      at := Some(len);
      len := len + n;
    }

    // ----- writing

    method PutByte(v: byte)
      requires Valid()
      modifies this, buf
      ensures Valid()
      ensures bad <==> old(bad) || 1 > buf.Length - old(len)
      ensures !bad ==> len == old(len) + 1
      ensures !bad ==> forall t: seq<byte> {:trigger PutU8(v, t)} :: Written() + t == old(Written()) + PutU8(v, t)
    {
      var at := Take(1);
      if at.Some? {
        buf[at.value] := v;
        assert Written() == old(Written()) + [v];
        Appended(old(Written()), [v], Written());
      }
    }

    method PutInt32(v: u32)
      requires Valid()
      modifies this, buf
      ensures Valid()
      ensures bad <==> old(bad) || 4 > buf.Length - old(len)
      ensures !bad ==> len == old(len) + 4
      ensures !bad ==> forall t: seq<byte> {:trigger PutU32(v, t)} :: Written() + t == old(Written()) + PutU32(v, t)
    {
      hide EncU32;
      var at := Take(4);
      if at.Some? {
        buf[at.value] := v / 0x100_0000 % 256;
        buf[at.value + 1] := v / 0x1_0000 % 256;
        buf[at.value + 2] := v / 0x100 % 256;
        buf[at.value + 3] := v % 256;
        BytesOfU32(v);
        assert Written() == old(Written()) + EncU32(v);
        Appended(old(Written()), EncU32(v), Written());
      }
    }

    method PutInt64(v: u64)
      requires Valid()
      modifies this, buf
      ensures Valid()
      ensures bad <==> old(bad) || 8 > buf.Length - old(len)
      ensures !bad ==> len == old(len) + 8
      ensures !bad ==> forall t: seq<byte> {:trigger PutU64(v, t)} :: Written() + t == old(Written()) + PutU64(v, t)
    {
      hide EncU64;
      var at := Take(8);
      if at.Some? {
        var i := 0;
        var shift := 0x100_0000_0000_0000;
        Widths();
        assert Power256(7) == shift;
        while i < 8
          invariant 0 <= i <= 8 && Valid() && !bad && len == old(len) + 8 && at.value == old(len)
          invariant i < 8 ==> shift == Power256(7 - i)
          invariant buf[..at.value] == old(Written())
          invariant buf[at.value..at.value + i] == EncU64(v)[..i]
        {
          ByteOfU64(v, i);
          buf[at.value + i] := v / shift % 256;
          if i < 7 {
            assert Power256(7 - i) == 256 * Power256(6 - i);
            shift := shift / 256;
          }
          i := i + 1;
        }
        assert Written() == old(Written()) + EncU64(v);
        Appended(old(Written()), EncU64(v), Written());
      }
    }

    method PutFlag(v: bool)
      requires Valid()
      modifies this, buf
      ensures Valid()
      ensures bad <==> old(bad) || 1 > buf.Length - old(len)
      ensures !bad ==> len == old(len) + 1
      ensures !bad ==> forall t: seq<byte> {:trigger PutBool(v, t)} :: Written() + t == old(Written()) + PutBool(v, t)
    {
      PutByte(if v then 1 else 0);
    }

    method PutBlock(data: seq<byte>)
      requires Valid()
      modifies this, buf
      ensures Valid()
      ensures bad <==> old(bad) || |data| > buf.Length - old(len)
      ensures !bad ==> len == old(len) + |data|
      ensures !bad ==> forall t: seq<byte> {:trigger PutRaw(data, t)} :: Written() + t == old(Written()) + PutRaw(data, t)
    {
      var at := Take(|data|);
      if at.Some? {
        var i := 0;
        while i < |data|
          invariant 0 <= i <= |data| && Valid() && !bad && len == old(len) + |data| && at.value == old(len)
          invariant buf[..at.value] == old(Written())
          invariant buf[at.value..at.value + i] == data[..i]
        {
          buf[at.value + i] := data[i];
          i := i + 1;
        }
        assert Written() == old(Written()) + data;
        Appended(old(Written()), data, Written());
      }
    }

    method PutString(data: seq<byte>)
      requires Valid()
      modifies this, buf
      ensures Valid()
      ensures bad <==> old(bad) || |data| >= 0x1_0000_0000 || 4 + |data| > buf.Length - old(len)
      ensures !bad ==> len == old(len) + 4 + |data|
      ensures !bad ==> forall t: seq<byte> {:trigger PutBytes(data, t)} :: Written() + t == old(Written()) + PutBytes(data, t)
    {
      hide PutU32, PutRaw;
      if |data| > 0xffff_ffff {
        bad := true;
        return;
      }
      PutInt32(|data|);
      PutBlock(data);
    }

    method WriteGuard(v: Guard)
      requires Valid()
      modifies this, buf
      ensures Valid()
      ensures bad <==> old(bad) || 9 > buf.Length - old(len)
      ensures !bad ==> len == old(len) + 9
      ensures !bad ==> forall t: seq<byte> {:trigger PutGuard(v, t)} :: Written() + t == old(Written()) + PutGuard(v, t)
    {
      hide PutU32, PutU64, PutBool, PutRaw;
      PutInt32(v.generation);
      PutInt32(v.writer);
      PutFlag(v.neverWritten);
    }

    method WriteOwner(v: Owner)
      requires Valid()
      modifies this, buf
      ensures Valid()
      ensures bad <==> old(bad) || 16 > buf.Length - old(len)
      ensures !bad ==> len == old(len) + 16
      ensures !bad ==> forall t: seq<byte> {:trigger PutOwner(v, t)} :: Written() + t == old(Written()) + PutOwner(v, t)
    {
      hide PutU32, PutU64, PutBool, PutRaw;
      PutInt64(v.cohort);
      PutInt32(v.writer);
      PutInt32(v.coId);
    }

    method WriteOpKey(v: OpKey)
      requires Valid()
      modifies this, buf
      ensures Valid()
      ensures bad <==> old(bad) || 28 > buf.Length - old(len)
      ensures !bad ==> len == old(len) + 28
      ensures !bad ==> forall t: seq<byte> {:trigger PutOpKey(v, t)} :: Written() + t == old(Written()) + PutOpKey(v, t)
    {
      hide PutU32, PutU64, PutBool, PutRaw;
      PutBlock(v.origin);
      PutInt64(v.sequence);
      PutInt32(v.ordinal);
    }

    method WriteObjKey(v: ObjKey)
      requires Valid()
      modifies this, buf
      ensures Valid()
      ensures bad <==> old(bad) || 32 > buf.Length - old(len)
      ensures !bad ==> len == old(len) + 32
      ensures !bad ==> forall t: seq<byte> {:trigger PutObjKey(v, t)} :: Written() + t == old(Written()) + PutObjKey(v, t)
    {
      hide PutU32, PutU64, PutBool, PutRaw;
      PutBlock(v.exportUuid);
      PutBlock(v.objectUuid);
    }

    /** A digest longer than its array is refused before it is read. */
    method WriteChecksum(v: Checksum)
      requires Valid()
      modifies this, buf
      ensures Valid()
      ensures bad <==> old(bad) || |v.digest| > 4 || 8 + |v.digest| > buf.Length - old(len)
      ensures !bad ==> len == old(len) + 8 + |v.digest|
      ensures !bad ==> forall t: seq<byte> {:trigger PutChecksum(v, t)} :: Written() + t == old(Written()) + PutChecksum(v, t)
    {
      hide PutU32, PutBytes;
      if |v.digest| > 4 {
        bad := true;
        return;
      }
      PutInt32(v.alg);
      PutString(v.digest);
    }

    method WriteOptU64(v: Option<u64>)
      requires Valid()
      modifies this, buf
      ensures Valid()
      ensures bad <==> old(bad) || (if v.None? then 1 else 9) > buf.Length - old(len)
      ensures !bad ==> len == old(len) + (if v.None? then 1 else 9)
      ensures !bad ==> forall t: seq<byte> {:trigger PutOptU64(v, t)} :: Written() + t == old(Written()) + PutOptU64(v, t)
    {
      hide PutU32, PutU64, PutBool, PutRaw, PutGuard;
      PutFlag(v.Some?);
      if v.Some? {
        PutInt64(v.value);
      }
    }

    method WriteOptU32(v: Option<u32>)
      requires Valid()
      modifies this, buf
      ensures Valid()
      ensures bad <==> old(bad) || (if v.None? then 1 else 5) > buf.Length - old(len)
      ensures !bad ==> len == old(len) + (if v.None? then 1 else 5)
      ensures !bad ==> forall t: seq<byte> {:trigger PutOptU32(v, t)} :: Written() + t == old(Written()) + PutOptU32(v, t)
    {
      hide PutU32, PutU64, PutBool, PutRaw, PutGuard;
      PutFlag(v.Some?);
      if v.Some? {
        PutInt32(v.value);
      }
    }

    method WriteOptGuard(v: Option<Guard>)
      requires Valid()
      modifies this, buf
      ensures Valid()
      ensures bad <==> old(bad) || (if v.None? then 1 else 10) > buf.Length - old(len)
      ensures !bad ==> len == old(len) + (if v.None? then 1 else 10)
      ensures !bad ==> forall t: seq<byte> {:trigger PutOptGuard(v, t)} :: Written() + t == old(Written()) + PutOptGuard(v, t)
    {
      hide PutU32, PutU64, PutBool, PutRaw, PutGuard;
      PutFlag(v.Some?);
      if v.Some? {
        WriteGuard(v.value);
      }
    }

    method WriteOptVerifier(v: Option<Verifier>)
      requires Valid()
      modifies this, buf
      ensures Valid()
      ensures bad <==> old(bad) || (if v.None? then 1 else 9) > buf.Length - old(len)
      ensures !bad ==> len == old(len) + (if v.None? then 1 else 9)
      ensures !bad ==> forall t: seq<byte> {:trigger PutOptVerifier(v, t)} :: Written() + t == old(Written()) + PutOptVerifier(v, t)
    {
      hide PutU32, PutU64, PutBool, PutRaw, PutGuard;
      PutFlag(v.Some?);
      if v.Some? {
        PutBlock(v.value);
      }
    }

    method WriteOptCertificate(v: Option<Certificate>)
      requires Valid()
      modifies this, buf
      ensures Valid()
      ensures bad <==> old(bad) || (if v.None? then 1 else 33) > buf.Length - old(len)
      ensures !bad ==> len == old(len) + (if v.None? then 1 else 33)
      ensures !bad ==> forall t: seq<byte> {:trigger PutOptCertificate(v, t)} :: Written() + t == old(Written()) + PutOptCertificate(v, t)
    {
      hide PutU32, PutU64, PutBool, PutRaw, PutGuard;
      PutFlag(v.Some?);
      if v.Some? {
        PutBlock(v.value);
      }
    }

    // ----- reading

    method ReadU8() returns (r: Option<byte>)
      requires Valid()
      modifies this
      ensures Valid()
      ensures r.Some? <==> !old(bad) && GetU8(old(Rest())).Got?
      ensures r.Some? ==> !bad && GetU8(old(Rest())) == Got(r.value, Rest())
    {
      var at :- Take(1);
      r := Some(buf[at]);
      assert Rest() == old(Rest())[1..];
    }

    method ReadU16() returns (r: Option<u16>)
      requires Valid()
      modifies this
      ensures Valid()
      ensures r.Some? <==> !old(bad) && GetU16(old(Rest())).Got?
      ensures r.Some? ==> !bad && GetU16(old(Rest())) == Got(r.value, Rest())
    {
      var at :- Take(2);
      ValueOfTwo(buf[at..at + 2]);
      r := Some(buf[at] as int * 0x100 + buf[at + 1]);
      assert Rest() == old(Rest())[2..] && buf[at..at + 2] == old(Rest())[..2];
    }

    method ReadU32() returns (r: Option<u32>)
      requires Valid()
      modifies this
      ensures Valid()
      ensures r.Some? <==> !old(bad) && GetU32(old(Rest())).Got?
      ensures r.Some? ==> !bad && GetU32(old(Rest())) == Got(r.value, Rest())
    {
      var at :- Take(4);
      ValueOfFour(buf[at..at + 4]);
      r := Some(buf[at] as int * 0x100_0000 + buf[at + 1] as int * 0x1_0000 + buf[at + 2] as int * 0x100 + buf[at + 3]);
      assert Rest() == old(Rest())[4..] && buf[at..at + 4] == old(Rest())[..4];
    }

    method ReadU64() returns (r: Option<u64>)
      requires Valid()
      modifies this
      ensures Valid()
      ensures r.Some? <==> !old(bad) && GetU64(old(Rest())).Got?
      ensures r.Some? ==> !bad && GetU64(old(Rest())) == Got(r.value, Rest())
    {
      var at :- Take(8);
      ghost var s := buf[at..at + 8];
      var out: nat := 0;
      var i := 0;
      while i < 8
        invariant 0 <= i <= 8 && Valid() && len == old(len) + 8 && !bad
        invariant out == FromBigEndian(s[..i])
      {
        assert s[..i + 1][..i] == s[..i];
        out := out * 256 + buf[at + i];
        i := i + 1;
      }
      assert s[..8] == s && Rest() == old(Rest())[8..] && s == old(Rest())[..8];
      EncodeOfDecode(s);
      Widths();
      r := Some(out);
    }

    method ReadBool() returns (r: Option<bool>)
      requires Valid()
      modifies this
      ensures Valid()
      ensures r.Some? <==> !old(bad) && GetBool(old(Rest())).Got?
      ensures r.Some? ==> !bad && GetBool(old(Rest())) == Got(r.value, Rest())
    {
      hide GetU8;
      var raw :- ReadU8();
      if raw > 1 {
        bad := true;
        return None;
      }
      r := Some(raw == 1);
    }

    method ReadRaw(n: nat) returns (r: Option<seq<byte>>)
      requires Valid()
      modifies this
      ensures Valid()
      ensures r.Some? <==> !old(bad) && GetRaw(n, old(Rest())).Got?
      ensures r.Some? ==> !bad && GetRaw(n, old(Rest())) == Got(r.value, Rest())
    {
      var at :- Take(n);
      r := Some(buf[at..at + n]);
      assert Rest() == old(Rest())[n..] && r.value == old(Rest())[..n];
    }

    method ReadBytes(max: nat) returns (r: Option<Blob>)
      requires Valid()
      modifies this
      ensures Valid()
      ensures r.Some? <==> !old(bad) && GetBytes(max, old(Rest())).Got?
      ensures r.Some? ==> !bad && GetBytes(max, old(Rest())) == Got(r.value, Rest())
    {
      hide GetU32, GetRaw;
      var n :- ReadU32();
      if n > max {
        bad := true;
        return None;
      }
      var b :- ReadRaw(n);
      RawLaws();
      r := Some(b);
    }

    method ReadGuard() returns (r: Option<Guard>)
      requires Valid()
      modifies this
      ensures Valid()
      ensures r.Some? <==> !old(bad) && GetGuard(old(Rest())).Got?
      ensures r.Some? ==> !bad && GetGuard(old(Rest())) == Got(r.value, Rest())
    {
      hide GetU32, GetU64, GetBool, GetBytes;
      var a :- ReadU32();
      var b :- ReadU32();
      var c :- ReadBool();
      r := Some(Guard(a, b, c));
    }

    method ReadOwner() returns (r: Option<Owner>)
      requires Valid()
      modifies this
      ensures Valid()
      ensures r.Some? <==> !old(bad) && GetOwner(old(Rest())).Got?
      ensures r.Some? ==> !bad && GetOwner(old(Rest())) == Got(r.value, Rest())
    {
      hide GetU32, GetU64, GetBool, GetBytes;
      var a :- ReadU64();
      var b :- ReadU32();
      var c :- ReadU32();
      r := Some(Owner(a, b, c));
    }

    method ReadOpKey() returns (r: Option<OpKey>)
      requires Valid()
      modifies this
      ensures Valid()
      ensures r.Some? <==> !old(bad) && GetOpKey(old(Rest())).Got?
      ensures r.Some? ==> !bad && GetOpKey(old(Rest())) == Got(r.value, Rest())
    {
      hide GetU32, GetU64, GetBool, GetBytes;
      var a :- ReadRaw(16);
      var b :- ReadU64();
      var c :- ReadU32();
      r := Some(OpKey(a, b, c));
    }

    method ReadChecksum() returns (r: Option<Checksum>)
      requires Valid()
      modifies this
      ensures Valid()
      ensures r.Some? <==> !old(bad) && GetChecksum(old(Rest())).Got?
      ensures r.Some? ==> !bad && GetChecksum(old(Rest())) == Got(r.value, Rest())
    {
      hide GetU32, GetU64, GetBool, GetBytes;
      var a :- ReadU32();
      var b :- ReadBytes(4);
      r := Some(Checksum(a, b));
    }

    method ReadObjKey() returns (r: Option<ObjKey>)
      requires Valid()
      modifies this
      ensures Valid()
      ensures r.Some? <==> !old(bad) && GetObjKey(old(Rest())).Got?
      ensures r.Some? ==> !bad && GetObjKey(old(Rest())) == Got(r.value, Rest())
    {
      hide GetU32, GetU64, GetBool, GetBytes;
      var a :- ReadRaw(16);
      var b :- ReadRaw(16);
      r := Some(ObjKey(a, b));
    }

    method ReadOptU64() returns (r: Option<Option<u64>>)
      requires Valid()
      modifies this
      ensures Valid()
      ensures r.Some? <==> !old(bad) && GetOptU64(old(Rest())).Got?
      ensures r.Some? ==> !bad && GetOptU64(old(Rest())) == Got(r.value, Rest())
    {
      hide GetU32, GetU64, GetBool, GetGuard;
      var present :- ReadBool();
      if !present { return Some(None); }
      var v :- ReadU64();
      r := Some(Some(v));
    }

    method ReadOptU32() returns (r: Option<Option<u32>>)
      requires Valid()
      modifies this
      ensures Valid()
      ensures r.Some? <==> !old(bad) && GetOptU32(old(Rest())).Got?
      ensures r.Some? ==> !bad && GetOptU32(old(Rest())) == Got(r.value, Rest())
    {
      hide GetU32, GetU64, GetBool, GetGuard;
      var present :- ReadBool();
      if !present { return Some(None); }
      var v :- ReadU32();
      r := Some(Some(v));
    }

    method ReadOptGuard() returns (r: Option<Option<Guard>>)
      requires Valid()
      modifies this
      ensures Valid()
      ensures r.Some? <==> !old(bad) && GetOptGuard(old(Rest())).Got?
      ensures r.Some? ==> !bad && GetOptGuard(old(Rest())) == Got(r.value, Rest())
    {
      hide GetU32, GetU64, GetBool, GetGuard;
      var present :- ReadBool();
      if !present { return Some(None); }
      var v :- ReadGuard();
      r := Some(Some(v));
    }

    method ReadOptVerifier() returns (r: Option<Option<Verifier>>)
      requires Valid()
      modifies this
      ensures Valid()
      ensures r.Some? <==> !old(bad) && GetOptVerifier(old(Rest())).Got?
      ensures r.Some? ==> !bad && GetOptVerifier(old(Rest())) == Got(r.value, Rest())
    {
      hide GetU32, GetU64, GetBool, GetGuard;
      var present :- ReadBool();
      if !present { return Some(None); }
      var v :- ReadRaw(8);
      r := Some(Some(v));
    }

    method ReadOptCertificate() returns (r: Option<Option<Certificate>>)
      requires Valid()
      modifies this
      ensures Valid()
      ensures r.Some? <==> !old(bad) && GetOptCertificate(old(Rest())).Got?
      ensures r.Some? ==> !bad && GetOptCertificate(old(Rest())) == Got(r.value, Rest())
    {
      hide GetU32, GetU64, GetBool, GetGuard;
      var present :- ReadBool();
      if !present { return Some(None); }
      var v :- ReadRaw(32);
      r := Some(Some(v));
    }

    /** Whether the decode consumed the whole buffer and met nothing bad. */
    method Finished() returns (ok: bool)
      requires Valid()
      ensures ok <==> !bad && Rest() == []
    {
      ok := !bad && len == buf.Length;
    }
  }

  lemma Appended(before: seq<byte>, data: seq<byte>, after: seq<byte>)
    requires after == before + data
    ensures forall t: seq<byte> {:trigger data + t} :: after + t == before + (data + t)
  {
  }

  lemma BytesOfU32(v: u32)
    ensures EncU32(v) == [v / 0x100_0000 % 256, v / 0x1_0000 % 256, v / 0x100 % 256, v % 256]
  {
    Widths();
    assert Power256(3) == 0x100_0000;
    BigEndianAt(v, 4, 0); BigEndianAt(v, 4, 1); BigEndianAt(v, 4, 2); BigEndianAt(v, 4, 3);
  }

  lemma ByteOfU64(v: u64, i: nat)
    requires i < 8
    ensures EncU64(v)[i] == v / Power256(7 - i) % 256
  {
    BigEndianAt(v, 8, i);
  }

  lemma ValueOfTwo(s: seq<byte>)
    requires |s| == 2
    ensures DecU16(s) == s[0] as int * 0x100 + s[1]
  {
    assert FromBigEndian(s[..1]) == s[0];
  }

  lemma ValueOfFour(s: seq<byte>)
    requires |s| == 4
    ensures DecU32(s) == s[0] as int * 0x100_0000 + s[1] as int * 0x1_0000 + s[2] as int * 0x100 + s[3]
  {
    assert s[..3][..2] == s[..2] && s[..2][..1] == s[..1];
    assert FromBigEndian(s[..1]) == s[0];
    assert FromBigEndian(s[..2]) == s[0] as int * 256 + s[1];
    assert FromBigEndian(s[..3]) == s[0] as int * 0x1_0000 + s[1] as int * 256 + s[2];
  }

  // ----- vectors

  /** Reading m more entries after `acc` finishes the vector of n that starts at `s`. */
  ghost predicate Resumes<T(!new)>(get: seq<byte> -> Parse<T>, n: nat, s: seq<byte>, acc: seq<T>, m: nat, rest: seq<byte>) {
    var whole := GetVec(get, n, s);
    var more := GetVec(get, m, rest);
    && (whole.Got? <==> more.Got?)
    && (more.Got? ==> whole == Got(acc + more.value, more.rest))
  }

  lemma ResumesNext<T(!new)>(get: seq<byte> -> Parse<T>, n: nat, s: seq<byte>, acc: seq<T>, m: nat, rest: seq<byte>)
    requires m > 0 && Resumes(get, n, s, acc, m, rest)
    ensures get(rest).Fail? ==> GetVec(get, n, s).Fail?
    ensures get(rest).Got? ==> Resumes(get, n, s, acc + [get(rest).value], m - 1, get(rest).rest)
  {
    if get(rest).Got? {
      var more := GetVec(get, m - 1, get(rest).rest);
      if more.Got? {
        assert acc + ([get(rest).value] + more.value) == acc + [get(rest).value] + more.value;
      }
    }
  }

  lemma Starts<T(!new)>(get: seq<byte> -> Parse<T>, n: nat, s: seq<byte>)
    ensures Resumes(get, n, s, [], n, s)
  {
    var whole := GetVec(get, n, s);
    if whole.Got? {
      assert [] + whole.value == whole.value;
    }
  }

  lemma Ends<T(!new)>(get: seq<byte> -> Parse<T>, n: nat, s: seq<byte>, acc: seq<T>, rest: seq<byte>)
    requires Resumes(get, n, s, acc, 0, rest)
    ensures GetVec(get, n, s) == Got(acc, rest)
  {
    assert acc + [] == acc;
  }

  method WriteHandles(c: Cursor, es: seq<u64>)
    requires c.Valid()
    modifies c, c.buf
    ensures c.Valid()
    ensures c.bad <==> old(c.bad) || Total(HandleSize, es) > c.buf.Length - old(c.len)
    ensures !c.bad ==> c.len == old(c.len) + Total(HandleSize, es)
    ensures !c.bad ==> forall t: seq<byte> {:trigger PutVec(PutU64, es, t)} :: c.Written() + t == old(c.Written()) + PutVec(PutU64, es, t)
  {
    hide PutU64;
    var i := 0;
    while i < |es|
      invariant 0 <= i <= |es| && c.Valid()
      invariant c.bad ==> old(c.bad) || Total(HandleSize, es) > c.buf.Length - old(c.len)
      invariant !c.bad ==> !old(c.bad) && c.len + Total(HandleSize, es[i..]) == old(c.len) + Total(HandleSize, es)
      invariant !c.bad ==> forall t: seq<byte> {:trigger PutVec(PutU64, es, t)} ::
                  c.Written() + PutVec(PutU64, es[i..], t) == old(c.Written()) + PutVec(PutU64, es, t)
    {
      assert es[i..][0] == es[i] && es[i..][1..] == es[i + 1..];
      c.PutInt64(es[i]);
      i := i + 1;
    }
    assert es[i..] == [];
  }

  method ReadHandles(c: Cursor, n: nat) returns (r: Option<seq<u64>>)
    requires c.Valid()
    modifies c
    ensures c.Valid()
    ensures r.Some? <==> !old(c.bad) && GetVec(GetU64, n, old(c.Rest())).Got?
    ensures r.Some? ==> !c.bad && GetVec(GetU64, n, old(c.Rest())) == Got(r.value, c.Rest())
  {
    hide GetU64, GetVec, Resumes;
    Starts(GetU64, n, c.Rest());
    var acc: seq<u64> := [];
    if c.bad { return None; }
    var i := 0;
    while i < n
      invariant 0 <= i <= n && c.Valid() && !c.bad
      invariant Resumes(GetU64, n, old(c.Rest()), acc, n - i, c.Rest())
    {
      ResumesNext(GetU64, n, old(c.Rest()), acc, n - i, c.Rest());
      var e :- c.ReadU64();
      acc := acc + [e];
      i := i + 1;
    }
    Ends(GetU64, n, old(c.Rest()), acc, c.Rest());
    r := Some(acc);
  }
}
