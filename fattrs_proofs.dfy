/**
 * What `FAttrs.read` promises about the bytes it consumes and the fields it sets, stated over
 * the functions of FAttrsSpec.
 */
module FAttrsProofs {
  import opened Wrappers
  import opened FStore
  import opened FAttrsSpec

  /** A count of 0 gives the shared instance after exactly the two count bytes, and no other count does. */
  lemma ReadZero(pod: Pod, bytes: seq<Byte>, pos: nat)
    ensures ReadSpec(pod, bytes, pos).Shared? <==> pos + 2 <= |bytes| && bytes[pos] == 0 && bytes[pos + 1] == 0
    ensures ReadSpec(pod, bytes, pos).Shared? ==> ReadSpec(pod, bytes, pos).pos == pos + 2
  {
    if pos + 2 <= |bytes| && bytes[pos] as int * 0x100 + bytes[pos + 1] as int == 0 {
      assert bytes[pos] == 0;
    }
  }

  /**
   * Records are consumed one after the other: when `n` records decode, so does every prefix of
   * them, to the updates of the first `i` records.
   */
  lemma {:induction false} DecodeRecordsPrefix(pod: Pod, bytes: seq<Byte>, pos: nat, i: nat, n: nat)
    requires i <= n && DecodeRecords(pod, bytes, pos, n).Ok?
    ensures DecodeRecords(pod, bytes, pos, i).Ok?
    ensures DecodeRecords(pod, bytes, pos, i).value == DecodeRecords(pod, bytes, pos, n).value[..i]
    decreases n
  {
    if i < n {
      DecodeRecordsPrefix(pod, bytes, pos, i, n - 1);
      var prev := DecodeRecords(pod, bytes, pos, n - 1).value;
      assert DecodeRecords(pod, bytes, pos, n).value[..n - 1] == prev;
      assert prev[..i] == DecodeRecords(pod, bytes, pos, n).value[..i];
    } else {
      assert DecodeRecords(pod, bytes, pos, n).value[..n] == DecodeRecords(pod, bytes, pos, n).value;
    }
  }

  /**
   * For a count `n > 0`, `read` never hands back the shared instance: it fails exactly when one
   * of the `n` records fails, with that record's error, and otherwise returns a new object
   * whose every field holds what the last record writing it wrote, or its default when no
   * record writes it.
   */
  lemma ReadRecords(pod: Pod, bytes: seq<Byte>, pos: nat)
    requires pos + 2 <= |bytes| && U2At(bytes, pos).value.0 > 0
    ensures var n := U2At(bytes, pos).value.0; var recs := DecodeRecords(pod, bytes, pos + 2, n);
      var res := ReadSpec(pod, bytes, pos);
      && !res.Shared?
      && (res.Decoded? <==> recs.Ok?)
      && (res.Failed? ==> res.err == recs.err)
      && (res.Decoded? ==> |recs.value| == n && res.pos == recs.pos)
      && (res.Decoded? ==>
            forall i :: 0 <= i < |recs.value| && Sets(recs.value[i]).Some?
                          && (forall j :: i < j < |recs.value| ==> Sets(recs.value[j]) != Sets(recs.value[i]))
                        ==> Agree(res.attrs, Apply(Blank, recs.value[i]), Sets(recs.value[i]).value))
      && (res.Decoded? ==>
            forall f :: (forall j :: 0 <= j < |recs.value| ==> Sets(recs.value[j]) != Some(f))
                        ==> Agree(res.attrs, Blank, f))
  {
    var n := U2At(bytes, pos).value.0;
    var recs := DecodeRecords(pod, bytes, pos + 2, n);
    if recs.Ok? {
      var us := recs.value;
      forall i | 0 <= i < |us| && Sets(us[i]).Some? && (forall j :: i < j < |us| ==> Sets(us[j]) != Sets(us[i]))
        ensures Agree(ApplyAll(Blank, us), Apply(Blank, us[i]), Sets(us[i]).value)
      {
        LastWins(Blank, us, i);
      }
      forall f | forall j :: 0 <= j < |us| ==> Sets(us[j]) != Some(f)
        ensures Agree(ApplyAll(Blank, us), Blank, f)
      {
        NeverSet(Blank, us, f);
      }
    }
  }

  /**
   * A record whose name no handler takes is skipped by its u2 length: exactly that many bytes
   * are passed over and no field changes; when fewer bytes remain, `read` throws.
   */
  lemma SkipUnknown(pod: Pod, bytes: seq<Byte>, pos: nat, a: Attrs)
    requires pod.name(bytes, pos).Some?
    requires Classify(pod.version, pod.name(bytes, pos).value.0) == Unknown
    requires U2At(bytes, pod.name(bytes, pos).value.1).Some?
    ensures var after := U2At(bytes, pod.name(bytes, pos).value.1).value; var len := after.0; var p := after.1;
      && (p + len <= |bytes| ==> DecodeRecord(pod, bytes, pos) == Ok(Skipped, p + len))
      && (p + len > |bytes| ==> DecodeRecord(pod, bytes, pos) == Fail(IOError))
    ensures Apply(a, Skipped) == a
  {
  }

  /** `LineNumber`: one u2 is discarded and `lineNum` becomes the next one; nothing else changes. */
  lemma LineNumberRecord(pod: Pod, bytes: seq<Byte>, pos: nat, a: Attrs)
    requires pod.name(bytes, pos).Some? && pod.name(bytes, pos).value.0 == LineNumberAttr
    requires pod.name(bytes, pos).value.1 + 4 <= |bytes|
    ensures var p := pod.name(bytes, pos).value.1; var line := U2At(bytes, p + 2).value.0;
      && DecodeRecord(pod, bytes, pos) == Ok(SetLineNum(line), p + 4)
      && Apply(a, SetLineNum(line)) == a.(lineNum := line)
  {
    ClassifyByName(pod.version, LineNumberAttr);
  }

  /** `SourceFile`: one u2 is discarded and `sourceFile` becomes the utf string after it; nothing else changes. */
  lemma SourceFileRecord(pod: Pod, bytes: seq<Byte>, pos: nat, a: Attrs)
    requires pod.name(bytes, pos).Some? && pod.name(bytes, pos).value.0 == SourceFileAttr
    requires pod.name(bytes, pos).value.1 + 2 <= |bytes|
    ensures var p := pod.name(bytes, pos).value.1; var file := pod.utf(bytes, p + 2);
      && (file.Some? ==> DecodeRecord(pod, bytes, pos) == Ok(SetSourceFile(file.value.0), file.value.1))
      && (file.None? ==> DecodeRecord(pod, bytes, pos) == Fail(IOError))
      && (file.Some? ==> Apply(a, SetSourceFile(file.value.0)) == a.(sourceFile := Some(file.value.0)))
  {
    ClassifyByName(pod.version, SourceFileAttr);
  }

  /**
   * The facets attribute replaces the `facets` field with a map holding exactly the qnames of
   * the entries decoded after its count, each bound to the value of the last entry naming it;
   * the cursor ends after the last entry.
   */
  lemma FacetsRecord(pod: Pod, bytes: seq<Byte>, pos: nat, a: Attrs)
    requires FacetsF(pod, bytes, pos).Ok?
    ensures var o := FacetsF(pod, bytes, pos); var u := o.value;
      var count := U2At(bytes, U2At(bytes, pos).value.1).value;
      var decoded := FacetEntries(pod, bytes, count.1, count.0);
      && decoded.Ok? && |decoded.value| == count.0 && o.pos == decoded.pos
      && u.SetFacets? && Apply(a, u) == a.(facets := Some(u.facets))
      && (forall k :: k in u.facets <==> exists i :: 0 <= i < |decoded.value| && decoded.value[i].0 == k)
      && (forall i :: 0 <= i < |decoded.value| && (forall j :: i < j < |decoded.value| ==> decoded.value[j].0 != decoded.value[i].0)
            ==> u.facets[decoded.value[i].0] == decoded.value[i].1)
  {
    var count := U2At(bytes, U2At(bytes, pos).value.1).value;
    var es := FacetEntries(pod, bytes, count.1, count.0).value;
    var m := FacetsF(pod, bytes, pos).value.facets;
    assert m == PutAll(map[], es);
    forall k ensures k in m <==> exists i :: 0 <= i < |es| && es[i].0 == k {
      PutAllKeys(map[], es, k);
    }
    forall i | 0 <= i < |es| && (forall j :: i < j < |es| ==> es[j].0 != es[i].0)
      ensures m[es[i].0] == es[i].1
    {
      PutAllLast(map[], es, i);
    }
  }

  //////////////////////////////////////////////////////////////////////////
  // A worked stream
  //////////////////////////////////////////////////////////////////////////

  /** A name step that reads a u2 index into a table of names, as a pod's name table does. */
  function TableNames(names: seq<string>): Step<string> {
    (bytes: seq<Byte>, pos: nat) =>
      var i := U2At(bytes, pos);
      if i.None? || i.value.0 >= |names| then None else Some((names[i.value.0], i.value.1))
  }

  /** A pod whose names are `LineNumber` and `Doc`, and whose other steps all throw. */
  function ExamplePod(version: int): Pod {
    Pod(version, TableNames([LineNumberAttr, "Doc"]), (b: seq<Byte>, p: nat) => None,
        (b: seq<Byte>, p: nat) => None, (i: nat) => "", (s: string) => 0)
  }

  /** Two records: an unknown `Doc` attribute of three bytes, then `LineNumber` 42. */
  const ExampleBytes: seq<Byte> := [0, 2, 0, 1, 0, 3, 9, 9, 9, 0, 0, 0, 4, 0, 42]

  /** The first record names `Doc`, which no handler takes, so its three bytes are skipped. */
  lemma ExampleFirst(version: int)
    ensures DecodeRecord(ExamplePod(version), ExampleBytes, 2) == Ok(Skipped, 9)
  {
    assert ExamplePod(version).name(ExampleBytes, 2) == Some(("Doc", 4));
    assert Classify(version, "Doc") == Unknown;
  }

  /** The second record is `LineNumber`, with 42 after the discarded u2. */
  lemma ExampleSecond(version: int)
    ensures DecodeRecord(ExamplePod(version), ExampleBytes, 9) == Ok(SetLineNum(42), 15)
  {
    assert ExamplePod(version).name(ExampleBytes, 9) == Some((LineNumberAttr, 11));
    ClassifyByName(version, LineNumberAttr);
  }

  /** `read` on the two records gives a new object with only `lineNum` set, after all 15 bytes. */
  lemma ExampleRead(version: int)
    ensures ReadSpec(ExamplePod(version), ExampleBytes, 0) == Decoded(Blank.(lineNum := 42), 15)
  {
    var pod := ExamplePod(version);
    ExampleFirst(version);
    ExampleSecond(version);
    assert DecodeRecords(pod, ExampleBytes, 2, 0) == Ok([], 2);
    assert [] + [Skipped] == [Skipped];
    assert DecodeRecords(pod, ExampleBytes, 2, 1) == Ok([Skipped], 9);
    assert [Skipped] + [SetLineNum(42)] == [Skipped, SetLineNum(42)];
    assert DecodeRecords(pod, ExampleBytes, 2, 2) == Ok([Skipped, SetLineNum(42)], 15);
    assert ApplyAll(Blank, [Skipped, SetLineNum(42)]) == Apply(ApplyAll(Blank, [Skipped]), SetLineNum(42));
  }

  /** The same stream cut after one byte of the skipped attribute: the short skip throws. */
  lemma ExampleShortSkip(version: int)
    ensures ReadSpec(ExamplePod(version), ExampleBytes[..7], 0) == Failed(IOError)
  {
    var pod := ExamplePod(version);
    var bytes := ExampleBytes[..7];
    assert bytes == [0, 2, 0, 1, 0, 3, 9];
    assert pod.name(bytes, 2) == Some(("Doc", 4));
    assert Classify(version, "Doc") == Unknown;
    assert DecodeRecord(pod, bytes, 2) == Fail(IOError);
    assert DecodeRecords(pod, bytes, 2, 0) == Ok([], 2);
    assert DecodeRecords(pod, bytes, 2, 1) == Fail(IOError);
  }
}
