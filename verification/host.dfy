/** The host (QCOW) file behind the `BufReader`, and `read_bytes`.

  The host is an immutable byte sequence.  Every routine of the crate seeks to an
  absolute offset before reading, so the file cursor is not part of any state
  here.  The host behaves as a `std::fs::File` (or a `Cursor`) does: seeking to
  any offset a signed 64-bit file position can hold succeeds, even past the end,
  and a read there returns no bytes.  The one I/O failure modelled is a seek to
  an offset of 2^63 or more.
 */
module HostFile {

  import opened Bytes
  import opened Results

  /** The first absolute offset a seek cannot reach: file positions are `i64`. */
  const SeekLimit: nat := 0x8000_0000_0000_0000

  /** `seek(SeekFrom::Start(offset))` on the host succeeds; it does so whatever
      the length of the host. */
  predicate CanSeek(offset: nat) {
    offset < SeekLimit
  }

  /** One `read` call of at most `n` bytes at `offset`: it returns the bytes that
      are there, is short only when the host ends first, and returns nothing at
      or past the end. */
  function HostRead(host: seq<byte>, offset: nat, n: nat): (r: seq<byte>)
    ensures |r| <= n
    ensures offset <= |host| ==> offset + |r| <= |host| && r == host[offset..offset + |r|]
    ensures offset >= |host| ==> r == []
    ensures |r| == n || offset + |r| >= |host|
  {
    if offset >= |host| then []
    else if offset + n <= |host| then host[offset..offset + n]
    else host[offset..]
  }

  /** The byte at `offset + i` of the host, or the zero a zero-filled buffer keeps
      there when the host is shorter. */
  function PaddedByte(host: seq<byte>, offset: nat, i: nat): byte {
    if offset + i < |host| then host[offset + i] else 0
  }

  /** `read_bytes`: seek, then a single read into a zero-filled buffer of `count`
      bytes; a short read only warns, the tail stays zero. */
  function ReadBytes(host: seq<byte>, offset: nat, count: nat): (r: Result<seq<byte>, CalfError>)
    ensures r.Ok? <==> CanSeek(offset)
    ensures r.Err? ==> r.error == SeekFile
    ensures r.Ok? ==> |r.value| == count
  {
    if !CanSeek(offset) then Err(SeekFile)
    else
      var got := HostRead(host, offset, count);
      Ok(got + Zeros(count - |got|))
  }

  /** The buffer `read_bytes` returns holds the host's bytes from `offset` on and
      zeros past the end of the host, all zeros when `offset` is past it. */
  lemma ReadBytesPadded(host: seq<byte>, offset: nat, count: nat)
    ensures var r := ReadBytes(host, offset, count);
      r.Ok? ==> forall i :: 0 <= i < count ==> r.value[i] == PaddedByte(host, offset, i)
  {
  }

  /** A read at or past the end of the host succeeds and gives zeros only. */
  lemma ReadBytesPastEnd(host: seq<byte>, offset: nat, count: nat)
    requires |host| <= offset < SeekLimit
    ensures ReadBytes(host, offset, count) == Ok(Zeros(count))
  {
    assert HostRead(host, offset, count) == [];
    assert [] + Zeros(count) == Zeros(count);
  }
}
