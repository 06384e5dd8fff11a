/** The meta record of meta.go: the page number of the free list, stored as eight
    little-endian bytes at the start of the meta page. */
module MetaRecord {
  import opened Results
  import opened Bytes

  datatype Meta = Meta(freelistPage: u64)

  /** `newEmptyMeta`. */
  function NewEmptyMeta(): (m: Meta)
    ensures m.freelistPage == 0
  {
    Meta(0)
  }

  /** `serialize`: `PutUint64(buf[0:], freelistPage)`; it panics on a buffer shorter than
      eight bytes and touches nothing past byte 7. */
  function Serialize(m: Meta, buf: seq<byte>): (r: Result<seq<byte>>)
    ensures r.Ok? <==> |buf| >= 8
    ensures r.Ok? ==> |r.value| == |buf| && r.value[8..] == buf[8..]
  {
    Put(buf, 0, LE(m.freelistPage, 8))
  }

  /** `deserialize` as written: it reads the eight bytes (panicking on a shorter buffer) but
      never assigns them, so the record comes back as it went in. */
  function Deserialize(m: Meta, buf: seq<byte>): (r: Result<Meta>)
    ensures r.Ok? <==> |buf| >= 8
    ensures r.Ok? ==> r.value == m
  {
    var _ :- ReadU64(buf, 0);
    Ok(m)
  }

  /** As written the round trip fails: a record with free-list page 5 serialized and read
      back into an empty record gives page 0. */
  lemma DeserializeLosesPage(buf: seq<byte>)
    requires |buf| >= 8
    ensures Serialize(Meta(5), buf).Ok?
    ensures Deserialize(NewEmptyMeta(), Serialize(Meta(5), buf).value) == Ok(Meta(0))
  {
  }

  /** `deserialize` as evidently intended: the bytes read become the free-list page. */
  function DeserializeCorrected(m: Meta, buf: seq<byte>): (r: Result<Meta>)
    ensures r.Ok? <==> |buf| >= 8
  {
    var v :- ReadU64(buf, 0);
    Ok(Meta(v))
  }

  /** With the intended decode, serializing then deserializing gives the record back. */
  lemma RoundTrip(m: Meta, into: Meta, buf: seq<byte>)
    requires |buf| >= 8
    ensures Serialize(m, buf).Ok?
    ensures DeserializeCorrected(into, Serialize(m, buf).value) == Ok(m)
  {
    var out := Serialize(m, buf).value;
    assert Holds(out, 0, LE(m.freelistPage, 8));
    ReadU64Of(out, 0, m.freelistPage);
  }

  /** And the other way: writing back a record read from a page reproduces the page. */
  lemma ReadThenWrite(into: Meta, buf: seq<byte>)
    requires |buf| >= 8
    ensures DeserializeCorrected(into, buf).Ok?
    ensures Serialize(DeserializeCorrected(into, buf).value, buf) == Ok(buf)
  {
    Pow256Values();
    var v := FromLE(buf[..8]);
    LEOfFromLE(buf[..8]);
    assert buf[0..8] == buf[..8];
    var out := Serialize(Meta(v), buf).value;
    assert out == buf;
  }
}
