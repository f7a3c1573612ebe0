/**
 * `fanx.fcode.FAttrs`: the attributes of a type or slot, decoded from a pod's bytes. `read`
 * fills a new object field by field as it meets the records, each handler overwriting its
 * field; a count of 0 gives back the one shared `none` object instead.
 */
module FCode {
  import opened Wrappers
  import opened FStore
  import opened FAttrsSpec

  class FAttrs {
    var errTable: Option<Buf>
    var facets: Option<map<string, Obj>>
    var lineNum: int
    var lineNums: Option<Buf>
    var sourceFile: Option<string>

    /** The five fields as a value. */
    function Value(): Attrs
      reads this
    {
      Attrs(errTable, facets, lineNum, lineNums, sourceFile)
    }

    /** `new FAttrs()`: every field at its default. */
    constructor ()
      ensures Value() == Blank
    {
      errTable := None;
      facets := None;
      lineNum := 0;
      lineNums := None;
      sourceFile := None;
    }

    method ErrTable(input: Input) returns (ok: bool)
      modifies this, input
      ensures var o := ErrTableF(input.pod, input.bytes, old(input.pos));
        && (ok <==> o.Ok?)
        && (ok ==> Value() == Apply(old(Value()), o.value) && input.pos == o.pos)
        && (!ok ==> Value() == old(Value()))
    {
      var b := ReadFBuf(input);
      if b.None? {
        return false;
      }
      errTable := b;
      ok := true;
    }

    /** Builds the map entry by entry; a later entry for the same qname overwrites an earlier one. */
    method Facets(input: Input) returns (ok: bool)
      modifies this, input
      ensures var o := FacetsF(input.pod, input.bytes, old(input.pos));
        && (ok <==> o.Ok?)
        && (ok ==> Value() == Apply(old(Value()), o.value) && input.pos == o.pos)
        && (!ok ==> Value() == old(Value()))
    {
      var discarded := input.U2();
      if discarded.None? {
        return false;
      }
      var n := input.U2();
      if n.None? {
        return false;
      }
      ghost var start := input.pos;
      ghost var entries: seq<(string, Obj)> := [];
      var m: map<string, Obj> := map[];
      for i := 0 to n.value
        invariant FacetEntries(input.pod, input.bytes, start, i) == Ok(entries, input.pos)
        invariant m == PutAll(map[], entries)
        invariant Value() == old(Value())
      {
        var idx := input.U2();
        if idx.None? {
          FacetEntriesFailStays(input.pod, input.bytes, start, i + 1, n.value);
          return false;
        }
        var qname := input.pod.qname(idx.value);
        var lit := input.Utf();
        if lit.None? {
          FacetEntriesFailStays(input.pod, input.bytes, start, i + 1, n.value);
          return false;
        }
        var val := input.pod.initVal(lit.value);
        m := m[qname := val];
        entries := entries + [(qname, val)];
      }
      facets := Some(m);
      ok := true;
    }

    method LineNumber(input: Input) returns (ok: bool)
      modifies this, input
      ensures var o := LineNumberF(input.bytes, old(input.pos));
        && (ok <==> o.Ok?)
        && (ok ==> Value() == Apply(old(Value()), o.value) && input.pos == o.pos)
        && (!ok ==> Value() == old(Value()))
    {
      var discarded := input.U2();
      if discarded.None? {
        return false;
      }
      var line := input.U2();
      if line.None? {
        return false;
      }
      lineNum := line.value;
      ok := true;
    }

    method LineNumbers(input: Input) returns (ok: bool)
      modifies this, input
      ensures var o := LineNumbersF(input.pod, input.bytes, old(input.pos));
        && (ok <==> o.Ok?)
        && (ok ==> Value() == Apply(old(Value()), o.value) && input.pos == o.pos)
        && (!ok ==> Value() == old(Value()))
    {
      var b := ReadFBuf(input);
      if b.None? {
        return false;
      }
      lineNums := b;
      ok := true;
    }

    method SourceFile(input: Input) returns (ok: bool)
      modifies this, input
      ensures var o := SourceFileF(input.pod, input.bytes, old(input.pos));
        && (ok <==> o.Ok?)
        && (ok ==> Value() == Apply(old(Value()), o.value) && input.pos == o.pos)
        && (!ok ==> Value() == old(Value()))
    {
      var discarded := input.U2();
      if discarded.None? {
        return false;
      }
      var file := input.Utf();
      if file.None? {
        return false;
      }
      sourceFile := file;
      ok := true;
    }
  }

  /** What `read` hands back: an object, or the exception it throws. */
  datatype ReadOutcome = Got(attrs: FAttrs) | Threw(err: ReadError)

  /**
   * `FAttrs.read(in)`. `none` is the shared instance, every field at its default, returned for a count of 0; any
   * other successful read returns a new object, so never `none`.
   */
  method Read(input: Input, none: FAttrs) returns (r: ReadOutcome)
    requires none.Value() == Blank
    modifies input
    ensures var spec := ReadSpec(input.pod, input.bytes, old(input.pos));
      && (spec.Failed? ==> r == Threw(spec.err))
      && (spec.Shared? ==> r == Got(none) && none.Value() == Blank && input.pos == spec.pos)
      && (spec.Decoded? ==> r.Got? && fresh(r.attrs) && r.attrs.Value() == spec.attrs && input.pos == spec.pos)
  {
    var n := input.U2();
    if n.None? {
      return Threw(IOError);
    }
    if n.value == 0 {
      return Got(none);
    }
    var attrs := new FAttrs();
    ghost var start := input.pos;
    ghost var us: seq<Update> := [];
    for i := 0 to n.value
      invariant fresh(attrs)
      invariant DecodeRecords(input.pod, input.bytes, start, i) == Ok(us, input.pos)
      invariant attrs.Value() == ApplyAll(Blank, us)
    {
      ghost var rec := DecodeRecord(input.pod, input.bytes, input.pos);
      var err := ReadRecord(input, attrs);
      if err.Some? {
        DecodeRecordsFailStays(input.pod, input.bytes, start, i + 1, n.value);
        return Threw(err.value);
      }
      us := us + [rec.value];
    }
    return Got(attrs);
  }

  /** One pass of the loop in `read`: the name, then the handler it selects or the skip. */
  method ReadRecord(input: Input, attrs: FAttrs) returns (err: Option<ReadError>)
    modifies input, attrs
    ensures var o := DecodeRecord(input.pod, input.bytes, old(input.pos));
      && (err.None? <==> o.Ok?)
      && (err.None? ==> attrs.Value() == Apply(old(attrs.Value()), o.value) && input.pos == o.pos)
      && (err.Some? ==> err.value == o.err)
  {
    var name := input.Name();
    if name.None? {
      return Some(IOError);
    }
    var ok := false;
    var handled := false;
    if (input.pod.version == LegacyFacetsVersion && name.value == FacetsAttr) || name.value == OldFacetsAttr {
      ok := attrs.Facets(input);
      handled := true;
    } else if name.value == [] {
      return Some(EmptyName);
    } else {
      match name.value[0]
      case 'E' =>
        if name.value == ErrTableAttr {
          ok := attrs.ErrTable(input);
          handled := true;
        }
      case 'F' =>
        // the source prints a reminder here and falls through to the skip
      case 'L' =>
        if name.value == LineNumberAttr {
          ok := attrs.LineNumber(input);
          handled := true;
        } else if name.value == LineNumbersAttr {
          ok := attrs.LineNumbers(input);
          handled := true;
        }
      case 'S' =>
        if name.value == SourceFileAttr {
          ok := attrs.SourceFile(input);
          handled := true;
        }
      case _ =>
    }
    if !handled {
      var len := input.U2();
      if len.Some? {
        var skipped := input.Skip(len.value);
        ok := skipped == len.value;
      }
    }
    err := if ok then None else Some(IOError);
  }
}
