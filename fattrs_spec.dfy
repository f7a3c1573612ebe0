/**
 * What `FAttrs.read` decodes, as functions of the pod and the bytes: a u2 count, then per
 * record a name and whatever the handler chosen by that name reads. Every handler yields one
 * `Update`: the one field of `FAttrs` it overwrites, or nothing for a skipped record.
 */
module FAttrsSpec {
  import opened Wrappers
  import opened FStore

  /** The attribute names of the fcode format, as `FConst` spells them. */
  const ErrTableAttr := "ErrTable"
  const LineNumberAttr := "LineNumber"
  const LineNumbersAttr := "LineNumbers"
  const SourceFileAttr := "SourceFile"
  /** The legacy facets attribute, and the pod version whose "Facets" attribute still has the legacy layout. */
  const FacetsAttr := "Facets"
  const OldFacetsAttr := "OldFacets"
  const LegacyFacetsVersion := 0x1000045

  /** The fields of one `FAttrs`; `None` stands for a field still `null`. */
  datatype Attrs = Attrs(
    errTable: Option<Buf>,
    facets: Option<map<string, Obj>>,
    lineNum: int,
    lineNums: Option<Buf>,
    sourceFile: Option<string>)

  /** The fields of `new FAttrs()`, and so of the shared `none`: Java's defaults. */
  const Blank := Attrs(None, None, 0, None, None)

  /** `IOException` from a reader step or a short skip; the exception `charAt(0)` throws on an empty name. */
  datatype ReadError = IOError | EmptyName

  /** What a decoding step gives: a value and the cursor after it, or the error it throws. */
  datatype Outcome<T> = Fail(err: ReadError) | Ok(value: T, pos: nat)

  //////////////////////////////////////////////////////////////////////////
  // Dispatch
  //////////////////////////////////////////////////////////////////////////

  /** Which handler a record goes to; `Unnamed` is the empty name, on which `charAt(0)` throws. */
  datatype Kind = FacetsKind | ErrTableKind | LineNumberKind | LineNumbersKind | SourceFileKind | Unknown | Unnamed

  /**
   * The dispatch of `read`: the legacy-facets test first, then a switch on the first character
   * and an exact comparison under it. An 'F' name other than the legacy one is skipped.
   */
  function Classify(version: int, name: string): Kind {
    if (version == LegacyFacetsVersion && name == FacetsAttr) || name == OldFacetsAttr then FacetsKind
    else if name == [] then Unnamed
    else match name[0]
      case 'E' => if name == ErrTableAttr then ErrTableKind else Unknown
      case 'F' => Unknown
      case 'L' => if name == LineNumberAttr then LineNumberKind else if name == LineNumbersAttr then LineNumbersKind else Unknown
      case 'S' => if name == SourceFileAttr then SourceFileKind else Unknown
      case _ => Unknown
  }

  /**
   * The switch on the first character selects exactly by the full name: each handler runs for
   * its own name and no other, and every other non-empty name is skipped.
   */
  lemma ClassifyByName(version: int, name: string)
    ensures Classify(version, name) == FacetsKind <==> (version == LegacyFacetsVersion && name == FacetsAttr) || name == OldFacetsAttr
    ensures Classify(version, name) == ErrTableKind <==> name == ErrTableAttr
    ensures Classify(version, name) == LineNumberKind <==> name == LineNumberAttr
    ensures Classify(version, name) == LineNumbersKind <==> name == LineNumbersAttr
    ensures Classify(version, name) == SourceFileKind <==> name == SourceFileAttr
    ensures Classify(version, name) == Unnamed <==> name == []
    ensures Classify(version, name) == Unknown <==>
      && name != [] && name !in {ErrTableAttr, LineNumberAttr, LineNumbersAttr, SourceFileAttr, OldFacetsAttr}
      && !(version == LegacyFacetsVersion && name == FacetsAttr)
  {
    if name != [] {
      if name == ErrTableAttr { assert name[0] == 'E'; }
      if name == LineNumberAttr || name == LineNumbersAttr { assert name[0] == 'L'; }
      if name == SourceFileAttr { assert name[0] == 'S'; }
    }
  }

  //////////////////////////////////////////////////////////////////////////
  // Updates
  //////////////////////////////////////////////////////////////////////////

  /** What one record does to the fields. */
  datatype Update =
    | SetErrTable(table: Buf)
    | SetFacets(facets: map<string, Obj>)
    | SetLineNum(line: int)
    | SetLineNums(nums: Buf)
    | SetSourceFile(file: string)
    | Skipped

  /** Each handler assigns its one field; a skipped record assigns none. */
  function Apply(a: Attrs, u: Update): Attrs {
    match u
    case SetErrTable(b) => a.(errTable := Some(b))
    case SetFacets(m) => a.(facets := Some(m))
    case SetLineNum(n) => a.(lineNum := n)
    case SetLineNums(b) => a.(lineNums := Some(b))
    case SetSourceFile(f) => a.(sourceFile := Some(f))
    case Skipped => a
  }

  /** The updates in order, as the loop of `read` applies them. */
  function ApplyAll(a: Attrs, us: seq<Update>): Attrs
    decreases |us|
  {
    if us == [] then a else Apply(ApplyAll(a, us[..|us| - 1]), us[|us| - 1])
  }

  datatype Field = ErrTableField | FacetsField | LineNumField | LineNumsField | SourceFileField

  /** The field an update writes. */
  function Sets(u: Update): Option<Field> {
    match u
    case SetErrTable(_) => Some(ErrTableField)
    case SetFacets(_) => Some(FacetsField)
    case SetLineNum(_) => Some(LineNumField)
    case SetLineNums(_) => Some(LineNumsField)
    case SetSourceFile(_) => Some(SourceFileField)
    case Skipped => None
  }

  /** `a` and `b` hold the same value in field `f`. */
  predicate Agree(a: Attrs, b: Attrs, f: Field) {
    match f
    case ErrTableField => a.errTable == b.errTable
    case FacetsField => a.facets == b.facets
    case LineNumField => a.lineNum == b.lineNum
    case LineNumsField => a.lineNums == b.lineNums
    case SourceFileField => a.sourceFile == b.sourceFile
  }

  /** An update fixes the field it writes whatever was there before, and leaves every other field alone. */
  lemma ApplyFields(a: Attrs, b: Attrs, u: Update, f: Field)
    ensures Sets(u) == Some(f) ==> Agree(Apply(a, u), Apply(b, u), f)
    ensures Sets(u) != Some(f) ==> Agree(Apply(a, u), a, f)
  {
  }

  /**
   * When the same attribute occurs more than once, the last occurrence wins: the field holds
   * what the last update writing it wrote, as if the earlier ones had never been read.
   */
  lemma {:induction false} LastWins(a: Attrs, us: seq<Update>, i: nat)
    requires i < |us| && Sets(us[i]).Some?
    requires forall j :: i < j < |us| ==> Sets(us[j]) != Sets(us[i])
    ensures Agree(ApplyAll(a, us), Apply(a, us[i]), Sets(us[i]).value)
    decreases |us|
  {
    var last := |us| - 1;
    var f := Sets(us[i]).value;
    if i == last {
      ApplyFields(ApplyAll(a, us[..last]), a, us[i], f);
    } else {
      var prefix := us[..last];
      assert prefix[i] == us[i];
      LastWins(a, prefix, i);
      ApplyFields(ApplyAll(a, prefix), a, us[last], f);
    }
  }

  /** A field no record writes keeps the value it had. */
  lemma {:induction false} NeverSet(a: Attrs, us: seq<Update>, f: Field)
    requires forall j :: 0 <= j < |us| ==> Sets(us[j]) != Some(f)
    ensures Agree(ApplyAll(a, us), a, f)
    decreases |us|
  {
    if us != [] {
      var last := |us| - 1;
      NeverSet(a, us[..last], f);
      ApplyFields(ApplyAll(a, us[..last]), a, us[last], f);
    }
  }

  //////////////////////////////////////////////////////////////////////////
  // Facets
  //////////////////////////////////////////////////////////////////////////

  /** The map after `map.put(k, v)` for each entry in order. */
  function PutAll(m: map<string, Obj>, es: seq<(string, Obj)>): map<string, Obj>
    decreases |es|
  {
    if es == [] then m else PutAll(m, es[..|es| - 1])[es[|es| - 1].0 := es[|es| - 1].1]
  }

  /** A key is in the map exactly when it was there before or some entry names it. */
  lemma {:induction false} PutAllKeys(m: map<string, Obj>, es: seq<(string, Obj)>, k: string)
    ensures k in PutAll(m, es) <==> k in m || exists i :: 0 <= i < |es| && es[i].0 == k
    decreases |es|
  {
    if es != [] {
      var last := |es| - 1;
      PutAllKeys(m, es[..last], k);
      if exists i :: 0 <= i < last && es[..last][i].0 == k {
        var i :| 0 <= i < last && es[..last][i].0 == k;
        assert es[i].0 == k;
      }
      if exists i :: 0 <= i < |es| && es[i].0 == k {
        var i :| 0 <= i < |es| && es[i].0 == k;
        if i < last {
          assert es[..last][i].0 == k;
        }
      }
    }
  }

  /** For a repeated qname the later entry overwrites the earlier one: the value is that of the last entry naming it. */
  lemma {:induction false} PutAllLast(m: map<string, Obj>, es: seq<(string, Obj)>, i: nat)
    requires i < |es| && forall j :: i < j < |es| ==> es[j].0 != es[i].0
    ensures es[i].0 in PutAll(m, es) && PutAll(m, es)[es[i].0] == es[i].1
    decreases |es|
  {
    var last := |es| - 1;
    if i < last {
      assert es[..last][i] == es[i];
      PutAllLast(m, es[..last], i);
    }
  }

  /** One facet entry: a u2 symbol index whose qname is the key, then the utf literal `initVal` turns into the value. */
  function FacetEntry(pod: Pod, bytes: seq<Byte>, pos: nat): Outcome<(string, Obj)> {
    var idx := U2At(bytes, pos);
    if idx.None? then Fail(IOError)
    else
      var lit := pod.utf(bytes, idx.value.1);
      if lit.None? then Fail(IOError)
      else Ok((pod.qname(idx.value.0), pod.initVal(lit.value.0)), lit.value.1)
  }

  /** The first `n` facet entries, in order. */
  function FacetEntries(pod: Pod, bytes: seq<Byte>, pos: nat, n: nat): (r: Outcome<seq<(string, Obj)>>)
    ensures r.Ok? ==> |r.value| == n
    ensures r.Fail? ==> r.err == IOError
    decreases n
  {
    if n == 0 then Ok([], pos)
    else
      var prev := FacetEntries(pod, bytes, pos, n - 1);
      if prev.Fail? then Fail(prev.err)
      else
        var e := FacetEntry(pod, bytes, prev.pos);
        if e.Fail? then Fail(e.err) else Ok(prev.value + [e.value], e.pos)
  }

  /** Once an entry fails, the whole facets attribute fails with the same error. */
  lemma {:induction false} FacetEntriesFailStays(pod: Pod, bytes: seq<Byte>, pos: nat, i: nat, n: nat)
    requires i <= n && FacetEntries(pod, bytes, pos, i).Fail?
    ensures FacetEntries(pod, bytes, pos, n) == FacetEntries(pod, bytes, pos, i)
    decreases n
  {
    if i < n {
      FacetEntriesFailStays(pod, bytes, pos, i, n - 1);
    }
  }

  //////////////////////////////////////////////////////////////////////////
  // Handlers
  //////////////////////////////////////////////////////////////////////////

  /** `facets(in)`: a u2 it discards, a u2 count, that many entries; the map replaces the field whole. */
  function FacetsF(pod: Pod, bytes: seq<Byte>, pos: nat): Outcome<Update> {
    var discarded := U2At(bytes, pos);
    if discarded.None? then Fail(IOError)
    else
      var count := U2At(bytes, discarded.value.1);
      if count.None? then Fail(IOError)
      else
        var es := FacetEntries(pod, bytes, count.value.1, count.value.0);
        if es.Fail? then Fail(es.err) else Ok(SetFacets(PutAll(map[], es.value)), es.pos)
  }

  /** `errTable(in)`: the field becomes what `FBuf.read` returns. */
  function ErrTableF(pod: Pod, bytes: seq<Byte>, pos: nat): Outcome<Update> {
    var b := pod.buf(bytes, pos);
    if b.None? then Fail(IOError) else Ok(SetErrTable(b.value.0), b.value.1)
  }

  /** `lineNumber(in)`: a u2 it discards, then the line number as a u2. */
  function LineNumberF(bytes: seq<Byte>, pos: nat): Outcome<Update> {
    var discarded := U2At(bytes, pos);
    if discarded.None? then Fail(IOError)
    else
      var line := U2At(bytes, discarded.value.1);
      if line.None? then Fail(IOError) else Ok(SetLineNum(line.value.0), line.value.1)
  }

  /** `lineNumbers(in)`: the field becomes what `FBuf.read` returns. */
  function LineNumbersF(pod: Pod, bytes: seq<Byte>, pos: nat): Outcome<Update> {
    var b := pod.buf(bytes, pos);
    if b.None? then Fail(IOError) else Ok(SetLineNums(b.value.0), b.value.1)
  }

  /** `sourceFile(in)`: a u2 it discards, then the file name as a utf string. */
  function SourceFileF(pod: Pod, bytes: seq<Byte>, pos: nat): Outcome<Update> {
    var discarded := U2At(bytes, pos);
    if discarded.None? then Fail(IOError)
    else
      var file := pod.utf(bytes, discarded.value.1);
      if file.None? then Fail(IOError) else Ok(SetSourceFile(file.value.0), file.value.1)
  }

  /** An attribute nobody handles: a u2 length, then that many bytes skipped; a short skip throws. */
  function SkipF(bytes: seq<Byte>, pos: nat): Outcome<Update> {
    var len := U2At(bytes, pos);
    if len.None? then Fail(IOError)
    else if SkipCount(bytes, len.value.1, len.value.0) != len.value.0 then Fail(IOError)
    else Ok(Skipped, len.value.1 + len.value.0)
  }

  /** The handler for a kind of record, reading from just after the name. */
  function Handle(k: Kind, pod: Pod, bytes: seq<Byte>, pos: nat): Outcome<Update> {
    match k
    case FacetsKind => FacetsF(pod, bytes, pos)
    case ErrTableKind => ErrTableF(pod, bytes, pos)
    case LineNumberKind => LineNumberF(bytes, pos)
    case LineNumbersKind => LineNumbersF(pod, bytes, pos)
    case SourceFileKind => SourceFileF(pod, bytes, pos)
    case Unknown => SkipF(bytes, pos)
    case Unnamed => Fail(EmptyName)
  }

  //////////////////////////////////////////////////////////////////////////
  // Records
  //////////////////////////////////////////////////////////////////////////

  /** One attribute record: its name, then the handler its name selects. */
  function DecodeRecord(pod: Pod, bytes: seq<Byte>, pos: nat): Outcome<Update> {
    var name := pod.name(bytes, pos);
    if name.None? then Fail(IOError)
    else Handle(Classify(pod.version, name.value.0), pod, bytes, name.value.1)
  }

  /** The first `n` records, in order. */
  function DecodeRecords(pod: Pod, bytes: seq<Byte>, pos: nat, n: nat): (r: Outcome<seq<Update>>)
    ensures r.Ok? ==> |r.value| == n
    decreases n
  {
    if n == 0 then Ok([], pos)
    else
      var prev := DecodeRecords(pod, bytes, pos, n - 1);
      if prev.Fail? then Fail(prev.err)
      else
        var u := DecodeRecord(pod, bytes, prev.pos);
        if u.Fail? then Fail(u.err) else Ok(prev.value + [u.value], u.pos)
  }

  /** Once a record fails, `read` fails with the same error: later records are never reached. */
  lemma {:induction false} DecodeRecordsFailStays(pod: Pod, bytes: seq<Byte>, pos: nat, i: nat, n: nat)
    requires i <= n && DecodeRecords(pod, bytes, pos, i).Fail?
    ensures DecodeRecords(pod, bytes, pos, n) == DecodeRecords(pod, bytes, pos, i)
    decreases n
  {
    if i < n {
      DecodeRecordsFailStays(pod, bytes, pos, i, n - 1);
    }
  }

  /** What `read` returns: the shared `none` (count 0), a new `FAttrs` with these fields, or an exception. */
  datatype ReadResult = Shared(pos: nat) | Decoded(attrs: Attrs, pos: nat) | Failed(err: ReadError)

  /** `FAttrs.read(in)`. */
  function ReadSpec(pod: Pod, bytes: seq<Byte>, pos: nat): ReadResult {
    var count := U2At(bytes, pos);
    if count.None? then Failed(IOError)
    else if count.value.0 == 0 then Shared(count.value.1)
    else
      var us := DecodeRecords(pod, bytes, count.value.1, count.value.0);
      if us.Fail? then Failed(us.err) else Decoded(ApplyAll(Blank, us.value), us.pos)
  }
}
