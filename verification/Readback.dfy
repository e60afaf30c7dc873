/**
  Hashing the first bytes of a stream whose reads may be arbitrarily short, and
  the flash-time comparison of an image with the device it was written to.
*/
module Readback {
  import opened Wrappers
  import opened Alphabets

  type Bytes = seq<bv8>

  /** SHA-256 in hex, as an arbitrary function of the bytes fed. */
  type Digest = Bytes -> string

  const CHUNK := 64 * 1024
  const DEFAULT_READBACK_BYTES := 64 * 1024 * 1024

  function Min(a: nat, b: nat): nat {
    if a < b then a else b
  }

  /** The bytes a prefix hash covers. */
  function FirstBytes(available: Bytes, n: nat): Bytes {
    available[..Min(n, |available|)]
  }

  /**
    `std::io::Read`: every call may return fewer bytes than asked, but returns
    none only at the end; any call may fail.
  */
  class Reader {
    const data: Bytes
    const chunkSize: nat -> nat
    const fails: nat -> bool
    var pos: nat
    var calls: nat

    constructor (data: Bytes, chunkSize: nat -> nat, fails: nat -> bool)
      ensures this.data == data && this.chunkSize == chunkSize && this.fails == fails && pos == 0
    {
      this.data, this.chunkSize, this.fails, pos, calls := data, chunkSize, fails, 0, 0;
    }

    ghost predicate Valid()
      reads this
    {
      pos <= |data|
    }

    ghost predicate Reliable()
      reads this
    {
      forall k :: !fails(k)
    }

    method Read(want: nat) returns (r: Result<Bytes, ()>)
      requires Valid() && want > 0
      modifies this
      ensures Valid() && old(pos) <= pos
      ensures r.Err? ==> exists k :: fails(k)
      ensures r.Ok? ==> r.value == data[old(pos)..pos] && |r.value| <= want && (r.value == [] <==> pos == |data| && old(pos) == |data|)
    {
      var call := calls;
      calls := calls + 1;
      if fails(call) {
        return Err(());
      }
      var most := Min(want, |data| - pos);
      var n := if chunkSize(call) == 0 then Min(1, most) else Min(chunkSize(call), most);
      r := Ok(data[pos..pos + n]);
      pos := pos + n;
    }
  }

  /**
    `sha256_of_first_bytes`: for every chunking, the hash of exactly the first
    `min(n, available)` bytes, and that count.
  */
  method Sha256OfFirstBytes(reader: Reader, n: nat, digest: Digest) returns (r: Result<(string, nat), ()>)
    requires reader.Valid()
    modifies reader
    ensures reader.Valid()
    ensures r.Err? ==> !reader.Reliable()
    ensures r.Ok? ==> var available := old(reader.data[reader.pos..]);
                      r.value == (digest(FirstBytes(available, n)), Min(n, |available|)) &&
                      reader.pos == old(reader.pos) + Min(n, |available|)
  {
    var fed: Bytes := [];
    var consumed := 0;
    ghost var available := reader.data[reader.pos..];
    ghost var start := reader.pos;
    while consumed < n
      invariant reader.Valid() && reader.pos == start + consumed
      invariant consumed == |fed| <= Min(n, |available|)
      invariant fed == available[..consumed]
      decreases n - consumed
    {
      var want := Min(n - consumed, CHUNK);
      var got := reader.Read(want);
      if got.Err? {
        return Err(());
      }
      if got.value == [] {
        break;
      }
      fed := fed + got.value;
      consumed := consumed + |got.value|;
    }
    assert consumed == Min(n, |available|);
    return Ok((digest(fed), consumed));
  }

  /** `sha256_file`: reads until an empty read. */
  method Sha256File(reader: Reader, digest: Digest) returns (r: Result<string, ()>)
    requires reader.Valid()
    modifies reader
    ensures r.Err? ==> !reader.Reliable()
    ensures r.Ok? ==> r.value == digest(old(reader.data[reader.pos..]))
  {
    var fed: Bytes := [];
    ghost var available := reader.data[reader.pos..];
    ghost var start := reader.pos;
    while true
      invariant reader.Valid() && reader.pos == start + |fed|
      invariant |fed| <= |available| && fed == available[..|fed|]
      decreases |available| - |fed|
    {
      var got := reader.Read(CHUNK);
      if got.Err? {
        return Err(());
      }
      if got.value == [] {
        break;
      }
      fed := fed + got.value;
    }
    assert fed == available;
    return Ok(digest(fed));
  }

  /** Two readers of one content, chunked in any two ways, hash alike once `n` covers it. */
  method PrefixHashIsFileHash(a: Reader, b: Reader, n: nat, digest: Digest) returns (prefix: string, whole: string)
    requires a != b && a.Valid() && b.Valid() && a.Reliable() && b.Reliable()
    requires a.pos == b.pos == 0 && a.data == b.data && n >= |a.data|
    modifies a, b
    ensures prefix == whole
  {
    var first := Sha256OfFirstBytes(a, n, digest);
    var all := Sha256File(b, digest);
    assert a.data[0..] == a.data && FirstBytes(a.data, n) == a.data;
    prefix, whole := first.value.0, all.value;
  }

  datatype ReadbackError =
    | Io
    | InvalidExpectedFormat(len: nat)
    | ShortRead(expected: nat, actual: nat)
    | Mismatch(expectedHash: string, actualHash: string)

  predicate IsValidSha256Hex(s: string) {
    |s| == 64 && forall i :: 0 <= i < |s| ==> '0' <= s[i] <= '9' || 'a' <= s[i] <= 'f'
  }

  /** Sixty-four characters, each a digit or one of the small letters a to f. */
  lemma ValidSha256HexSpelled(s: string)
    ensures IsValidSha256Hex(s) <==> |s| == 64 && forall c | c in s :: c in HEX
  {
    hide HEX;
    forall i | 0 <= i < |s| ensures s[i] in HEX <==> '0' <= s[i] <= '9' || 'a' <= s[i] <= 'f' {
      HexMembers(s[i]);
    }
    if IsValidSha256Hex(s) {
      forall c | c in s ensures c in HEX {
        var i :| 0 <= i < |s| && s[i] == c;
      }
    }
  }

  /** `verify_readback`, from the opened file on. */
  method VerifyReadback(f: Reader, n: nat, expected: string, digest: Digest) returns (r: Result<(), ReadbackError>)
    requires f.Valid()
    modifies f
    ensures r == Err(Io) ==> !f.Reliable()
    ensures r != Err(Io) ==>
              var available := old(f.data[f.pos..]);
              r == if !IsValidSha256Hex(expected) then Err(InvalidExpectedFormat(|expected|))
                   else if |available| < n then Err(ShortRead(n, |available|))
                   else if digest(available[..n]) != expected then Err(Mismatch(expected, digest(available[..n])))
                   else Ok(())
  {
    if !IsValidSha256Hex(expected) {
      return Err(InvalidExpectedFormat(|expected|));
    }
    var got := Sha256OfFirstBytes(f, n, digest);
    if got.Err? {
      return Err(Io);
    }
    var (actual, consumed) := got.value;
    if consumed < n {
      return Err(ShortRead(n, consumed));
    }
    if actual != expected {
      return Err(Mismatch(expected, actual));
    }
    return Ok(());
  }

  // ---- image against device -------------------------------------------------------------

  datatype FlashCheckError = HashImage | ImageShort(got: nat) | Dd | HashDevice | DeviceShort(got: nat) | HashMismatch

  /** `precompute_image_prefix_hash`, from the opened image on. */
  method PrecomputeImagePrefixHash(image: Reader, digest: Digest) returns (r: Result<string, FlashCheckError>)
    requires image.Valid() && image.pos == 0
    modifies image
    ensures r == Err(HashImage) ==> !image.Reliable()
    ensures r != Err(HashImage) ==>
              r == if |image.data| < DEFAULT_READBACK_BYTES then Err(ImageShort(|image.data|))
                   else Ok(digest(image.data[..DEFAULT_READBACK_BYTES]))
  {
    assert image.data[0..] == image.data;
    var got := Sha256OfFirstBytes(image, DEFAULT_READBACK_BYTES, digest);
    if got.Err? {
      return Err(HashImage);
    }
    if got.value.1 < DEFAULT_READBACK_BYTES {
      return Err(ImageShort(got.value.1));
    }
    return Ok(got.value.0);
  }

  /** `readback_verify_device`: `dd` fails, or hands over bytes that are then hashed from memory. */
  method ReadbackVerifyDevice(dd: Option<Bytes>, chunkSize: nat -> nat, expected: string, digest: Digest)
    returns (r: Result<(), FlashCheckError>)
    ensures r == match dd
                 case None => Err(Dd)
                 case Some(stdout) =>
                   if |stdout| < DEFAULT_READBACK_BYTES then Err(DeviceShort(|stdout|))
                   else if digest(stdout[..DEFAULT_READBACK_BYTES]) == expected then Ok(())
                   else Err(HashMismatch)
  {
    if dd.None? {
      return Err(Dd);
    }
    var cursor := new Reader(dd.value, chunkSize, _ => false);
    assert cursor.data[0..] == dd.value;
    var got := Sha256OfFirstBytes(cursor, DEFAULT_READBACK_BYTES, digest);
    if got.Err? {
      return Err(HashDevice);
    }
    if got.value.1 < DEFAULT_READBACK_BYTES {
      return Err(DeviceShort(got.value.1));
    }
    if got.value.0 != expected {
      return Err(HashMismatch);
    }
    return Ok(());
  }

  /** No two windows of the same length share a hash. */
  ghost predicate CollisionFree(digest: Digest) {
    forall a: Bytes, b: Bytes | |a| == |b| && digest(a) == digest(b) :: a == b
  }

  /** Image and device both hold the full window and agree on every byte of it. */
  ghost predicate WindowsAgree(image: Bytes, device: Bytes) {
    && |image| >= 67_108_864 && |device| >= 67_108_864
    && image[..67_108_864] == device[..67_108_864]
  }

  /**
    Hashing the image before the write and the device after it accepts only when
    the two windows agree, however little of the device `dd` hands over, and always
    then unless a read fails or falls short.
  */
  method FlashReadbackCheck(image: Reader, device: Bytes, dd: Option<Bytes>, chunkSize: nat -> nat, digest: Digest)
    returns (accepted: bool)
    requires image.Valid() && image.pos == 0 && CollisionFree(digest)
    requires dd.Some? ==> dd.value <= device
    modifies image
    ensures accepted ==> WindowsAgree(image.data, device)
    ensures && image.Reliable() && dd.Some? && |dd.value| >= DEFAULT_READBACK_BYTES
            && WindowsAgree(image.data, device)
            ==> accepted
  {
    var expected := PrecomputeImagePrefixHash(image, digest);
    if expected.Err? {
      return false;
    }
    if dd.Some? && |dd.value| >= DEFAULT_READBACK_BYTES {
      assert dd.value[..DEFAULT_READBACK_BYTES] == device[..|dd.value|][..DEFAULT_READBACK_BYTES] == device[..DEFAULT_READBACK_BYTES];
    }
    var verdict := ReadbackVerifyDevice(dd, chunkSize, expected.value, digest);
    return verdict.Ok?;
  }
}
