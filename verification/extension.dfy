/** Header extensions (src/format/extensions/extension.rs), as in the "Header
    extensions" section of QEMU's qcow2 format description: records of a
    big-endian 32-bit signature, a 32-bit body length, the body and padding.

    The source's loop guard is `!input.len() >= 9`, a bitwise complement that
    holds for every real input length, so the loop only ends at a record whose
    signature is 0 or at a parse failure.  The padding is `8 - size % 8`, which is
    8 (not 0) for a body whose length is already a multiple of 8. */
module HeaderExtensions {

  import opened Bytes
  import opened Results
  import opened Parsing
  import opened FeatureNames

  datatype Extensions = Extensions(features: seq<Feature>)

  /** Signature of the feature name table extension. */
  const FeatureTableSig: nat := 0x6803f857

  /** The padding after a body of `size` bytes. */
  function Padding(size: nat): (p: nat)
    ensures 1 <= p <= 8
    ensures (size + p) % 8 == 0
    ensures p == 8 <==> size % 8 == 0
  {
    8 - size % 8
  }

  /** What one record does to the collected extensions: a feature table replaces
      the feature list (an unparseable one gives an empty list); every other
      signature is skipped. */
  function Apply(sig: nat, body: seq<byte>, ext: Extensions): Extensions {
    if sig == FeatureTableSig then Extensions(GrabFeatures(body).GetOr([])) else ext
  }

  /** The loop of `get_extensions`, from the current input and extensions. */
  function GetExtensionsFrom(input: seq<byte>, ext: Extensions): (r: Nom<Extensions>)
    ensures r.Done? ==> |r.rest| + 9 <= |input| && r.rest == input[|input| - |r.rest|..]
    decreases |input|
  {
    var sig := TakeBe(input, 4);
    if sig.Failed? then Failed else
    var size := TakeBe(sig.rest, 4);
    if size.Failed? then Failed else
    var body := Take(size.rest, size.value);
    if body.Failed? then Failed else
    var padding := Take(body.rest, Padding(size.value));
    if padding.Failed? then Failed else
    if sig.value == 0 then Done(padding.rest, ext)
    else
      var r := GetExtensionsFrom(padding.rest, Apply(sig.value, body.value, ext));
      assert padding.rest == input[|input| - |padding.rest|..];
      r
  }

  /** `get_extensions`: start with no features. */
  function GetExtensions(data: seq<byte>): Nom<Extensions> {
    GetExtensionsFrom(data, Extensions([]))
  }

  /** `grab_extensions`: a parse failure becomes `HeaderExtensions`. */
  function GrabExtensions(data: seq<byte>): (r: Result<Extensions, CalfError>)
    ensures r.Ok? <==> GetExtensions(data).Done?
    ensures r.Ok? ==> r.value == GetExtensions(data).value
    ensures r.Err? ==> r.error == CalfError.HeaderExtensions
  {
    var parsed := GetExtensions(data);
    if parsed.Failed? then Err(CalfError.HeaderExtensions) else Ok(parsed.value)
  }

  /** An extension record, for writing. */
  datatype Record = Record(sig: nat, body: seq<byte>)

  predicate Encodable(r: Record) {
    r.sig < U32 && |r.body| < U32
  }

  /** A record as it is laid out on disk, with zero padding. */
  function EncodeRecord(r: Record): (s: seq<byte>)
    requires Encodable(r)
    ensures |s| == 8 + |r.body| + Padding(|r.body|)
  {
    BeBytes(r.sig, 4) + BeBytes(|r.body|, 4) + r.body + Zeros(Padding(|r.body|))
  }

  function EncodeRecords(rs: seq<Record>): seq<byte>
    requires forall i :: 0 <= i < |rs| ==> Encodable(rs[i])
  {
    if |rs| == 0 then [] else EncodeRecord(rs[0]) + EncodeRecords(rs[1..])
  }

  /** The extensions after applying `rs` in order to `ext`. */
  function Replay(rs: seq<Record>, ext: Extensions): Extensions {
    if |rs| == 0 then ext else Replay(rs[1..], Apply(rs[0].sig, rs[0].body, ext))
  }

  /** One record followed by anything: a zero signature ends the loop right after
      the record; any other signature is applied and the loop goes on. */
  lemma RecordStep(r: Record, tail: seq<byte>, ext: Extensions)
    requires Encodable(r)
    ensures GetExtensionsFrom(EncodeRecord(r) + tail, ext)
         == if r.sig == 0 then Done(tail, ext)
            else GetExtensionsFrom(tail, Apply(r.sig, r.body, ext))
  {
    var n := |r.body|;
    var input := EncodeRecord(r) + tail;
    assert Pow256(4) == U32;
    BeBytesRoundTrip(r.sig, 4);
    BeBytesRoundTrip(n, 4);
    assert input[..4] == BeBytes(r.sig, 4);
    assert input[4..][..4] == BeBytes(n, 4);
    assert input[8..][..n] == r.body;
    assert input[8 + n..][Padding(n)..] == tail;
  }

  /** Records with non-zero signatures are consumed one after another. */
  lemma {:induction false} RecordsStep(rs: seq<Record>, tail: seq<byte>, ext: Extensions)
    requires forall i :: 0 <= i < |rs| ==> Encodable(rs[i]) && rs[i].sig != 0
    ensures GetExtensionsFrom(EncodeRecords(rs) + tail, ext) == GetExtensionsFrom(tail, Replay(rs, ext))
  {
    if |rs| == 0 {
      assert EncodeRecords(rs) + tail == tail;
    } else {
      var next := Apply(rs[0].sig, rs[0].body, ext);
      var rest := EncodeRecords(rs[1..]) + tail;
      assert EncodeRecords(rs) + tail == EncodeRecord(rs[0]) + rest;
      RecordStep(rs[0], rest, ext);
      RecordsStep(rs[1..], tail, next);
      assert Replay(rs, ext) == Replay(rs[1..], next);
    }
  }

  /** A list of extensions ended by a zero-signature record parses, and the
      result is the replay of the records before it: the last feature table
      wins.  Whatever follows the terminator is left unconsumed. */
  lemma TerminatedParses(rs: seq<Record>, end: seq<byte>, tail: seq<byte>)
    requires forall i :: 0 <= i < |rs| ==> Encodable(rs[i]) && rs[i].sig != 0
    requires |end| < U32
    ensures GetExtensions(EncodeRecords(rs) + EncodeRecord(Record(0, end)) + tail)
         == Done(tail, Replay(rs, Extensions([])))
  {
    var t := EncodeRecord(Record(0, end)) + tail;
    assert EncodeRecords(rs) + EncodeRecord(Record(0, end)) + tail == EncodeRecords(rs) + t;
    RecordsStep(rs, t, Extensions([]));
    RecordStep(Record(0, end), tail, Replay(rs, Extensions([])));
  }

  /** Without a zero-signature record the loop runs off the end of the input and
      `grab_extensions` reports `HeaderExtensions`. */
  lemma UnterminatedFails(rs: seq<Record>)
    requires forall i :: 0 <= i < |rs| ==> Encodable(rs[i]) && rs[i].sig != 0
    ensures GrabExtensions(EncodeRecords(rs)) == Err(CalfError.HeaderExtensions)
  {
    assert EncodeRecords(rs) + [] == EncodeRecords(rs);
    RecordsStep(rs, [], Extensions([]));
  }

  /** Any input shorter than one record header fails, whatever it holds. */
  lemma ShortInputFails(data: seq<byte>)
    requires |data| < 9
    ensures GrabExtensions(data) == Err(CalfError.HeaderExtensions)
  {
  }
}
