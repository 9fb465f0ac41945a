/** The feature name table header extension (src/format/extensions/features.rs),
    as in the "Feature name table" section of QEMU's qcow2 format description:
    48-byte records of a type byte, a bit-number byte and a 46-byte name. */
module FeatureNames {

  import opened Bytes
  import opened Results
  import opened Parsing

  datatype FeatureType = Incompatible | Compatible | Autoclear | Unknown

  /** A feature record.  The name is kept as its 46 raw bytes; the UTF-8 text
      the source derives from them is described by `NameText` for the
      NUL-padded case. */
  datatype Feature = Feature(featureType: FeatureType, bitNumber: byte, name: seq<byte>)

  const RecordSize: nat := 48
  const NameSize: nat := 46

  function FeatureTypeCode(t: FeatureType): Option<byte> {
    match t
    case Incompatible => Some(0)
    case Compatible => Some(1)
    case Autoclear => Some(2)
    case Unknown => Nothing
  }

  /** `get_type`: 0, 1, 2 name a feature class, anything else is `Unknown`. */
  function FeatureTypeOf(b: byte): (t: FeatureType)
    ensures t.Unknown? <==> b > 2
    ensures !t.Unknown? ==> FeatureTypeCode(t) == Some(b)
  {
    match b
    case 0 => Incompatible
    case 1 => Compatible
    case 2 => Autoclear
    case _ => Unknown
  }

  /** The record a 48-byte run starting at `at` decodes to. */
  function RecordAt(data: seq<byte>, at: nat): Feature
    requires at + RecordSize <= |data|
  {
    Feature(FeatureTypeOf(data[at]), data[at + 1], data[at + 2..at + RecordSize])
  }

  /** `get_features`: decode one record while at least 48 bytes remain.  It never
      fails; input order is kept and fewer than 48 trailing bytes stay unconsumed. */
  function GetFeatures(data: seq<byte>): (r: Nom<seq<Feature>>)
    ensures r.Done?
    ensures |r.value| == |data| / RecordSize
    ensures r.rest == data[|data| / RecordSize * RecordSize..] && |r.rest| < RecordSize
    ensures forall i :: 0 <= i < |r.value| ==> r.value[i] == RecordAt(data, RecordSize * i)
    decreases |data|
  {
    if |data| < RecordSize then Done(data, [])
    else
      var kind := TakeBe(data, 1);
      var bit := TakeBe(kind.rest, 1);
      var name := Take(bit.rest, NameSize);
      assert kind.value == data[0] && bit.value == data[1] by {
        assert data[..1] == [data[0]] && data[1..][..1] == [data[1]];
      }
      assert name.value == data[2..RecordSize] && name.rest == data[RecordSize..];
      var tail := GetFeatures(name.rest);
      var r := Done(tail.rest, [Feature(FeatureTypeOf(kind.value), bit.value, name.value)] + tail.value);
      forall i | 1 <= i < |r.value|
        ensures r.value[i] == RecordAt(data, RecordSize * i)
      {
        RecordShift(data, i);
      }
      r
  }

  /** Record `i` of the input is record `i - 1` after the first one is consumed. */
  lemma RecordShift(data: seq<byte>, i: nat)
    requires 1 <= i && RecordSize * i + RecordSize <= |data|
    ensures RecordAt(data[RecordSize..], RecordSize * (i - 1)) == RecordAt(data, RecordSize * i)
  {
    var k := RecordSize * (i - 1);
    assert RecordSize + k == RecordSize * i;
    assert data[RecordSize..][k + 2..k + RecordSize] == data[RecordSize * i + 2..RecordSize * i + RecordSize];
  }

  /** `grab_features`: a failed parse would be `HeaderExtensionFeatures`, but the
      48-byte guard makes every record parse, so it always succeeds. */
  function GrabFeatures(data: seq<byte>): (r: Result<seq<Feature>, CalfError>)
    ensures r.Ok?
    ensures r.value == GetFeatures(data).value
  {
    var parsed := GetFeatures(data);
    if parsed.Failed? then Err(HeaderExtensionFeatures) else Ok(parsed.value)
  }

  /** The text of a name: its bytes with trailing NULs removed (what
      `extract_utf8_string` yields when the bytes are valid UTF-8). */
  function NameText(raw: seq<byte>): (t: seq<byte>)
    ensures |t| <= |raw| && t == raw[..|t|]
    ensures forall i :: |t| <= i < |raw| ==> raw[i] == 0
    ensures |t| > 0 ==> t[|t| - 1] != 0
  {
    if |raw| == 0 || raw[|raw| - 1] != 0 then raw else NameText(raw[..|raw| - 1])
  }

  /** A record well formed for writing: a known class and a 46-byte name. */
  predicate Writable(f: Feature) {
    !f.featureType.Unknown? && |f.name| == NameSize
  }

  function EncodeFeature(f: Feature): (s: seq<byte>)
    requires Writable(f)
    ensures |s| == RecordSize
  {
    [FeatureTypeCode(f.featureType).value, f.bitNumber] + f.name
  }

  function EncodeFeatures(fs: seq<Feature>): (s: seq<byte>)
    requires forall i :: 0 <= i < |fs| ==> Writable(fs[i])
    ensures |s| == RecordSize * |fs|
  {
    if |fs| == 0 then [] else EncodeFeature(fs[0]) + EncodeFeatures(fs[1..])
  }

  /** Round trip: a table written from well-formed records decodes back to the
      same records with nothing left over. */
  lemma {:induction false} FeaturesRoundTrip(fs: seq<Feature>)
    requires forall i :: 0 <= i < |fs| ==> Writable(fs[i])
    ensures GetFeatures(EncodeFeatures(fs)) == Done([], fs)
  {
    var s := EncodeFeatures(fs);
    var r := GetFeatures(s);
    assert |s| / RecordSize == |fs|;
    forall i | 0 <= i < |fs| ensures r.value[i] == fs[i] {
      EncodedRecordAt(fs, i);
    }
    assert r.value == fs;
  }

  lemma {:induction false} EncodedRecordAt(fs: seq<Feature>, i: nat)
    requires forall i :: 0 <= i < |fs| ==> Writable(fs[i])
    requires i < |fs|
    ensures RecordAt(EncodeFeatures(fs), RecordSize * i) == fs[i]
  {
    var s := EncodeFeatures(fs);
    if i == 0 {
      var f := fs[0];
      assert s[..RecordSize] == EncodeFeature(f);
      assert s[2..RecordSize] == f.name;
    } else {
      assert s[RecordSize..] == EncodeFeatures(fs[1..]);
      EncodedRecordAt(fs[1..], i - 1);
      RecordShift(s, i);
    }
  }
}
