/**
 * `fanx.fcode.FStore.Input`: a cursor over the bytes of one pod file, and the reader steps
 * `FAttrs` uses. `u2` and `skip` are those of Java's `DataInputStream`; `name`, `utf`,
 * `FBuf.read`, `symbolRef(..).qname()` and `Symbol.initVal` are steps of the pod this model
 * does not open up, so they come in as deterministic functions of the bytes and the cursor.
 */
module FStore {
  import opened Wrappers

  type Byte = b: int | 0 <= b < 0x100

  /** A step that reads a `T` at the cursor: the value and the new cursor, or None when it throws `IOException`. */
  type Step<T> = (seq<Byte>, nat) -> Option<(T, nat)>

  /** What `FBuf.read(in)` returns: a buffer of bytes. */
  datatype Buf = Buf(data: seq<Byte>)

  /** An opaque reference to the object `Symbol.initVal` builds from a facet's literal. */
  type Obj = nat

  /** The parts of the pod (`in.fpod`) that attribute decoding consults. */
  datatype Pod = Pod(
    version: int,
    name: Step<string>,
    utf: Step<string>,
    buf: Step<Buf>,
    qname: nat -> string,
    initVal: string -> Obj)

  /** `readUnsignedShort`: two bytes, high byte first; `EOFException` when fewer than two remain. */
  function U2At(bytes: seq<Byte>, pos: nat): (r: Option<(nat, nat)>)
    ensures r.Some? <==> pos + 2 <= |bytes|
    ensures r.Some? ==> r.value.0 < 0x1_0000 && r.value.1 == pos + 2
  {
    if pos + 2 <= |bytes| then Some(((bytes[pos] as int) * 0x100 + bytes[pos + 1] as int, pos + 2)) else None
  }

  /** The two bytes `writeShort` puts down for `n`. */
  function EncodeU2(n: nat): (r: seq<Byte>)
    requires n < 0x1_0000
  {
    [n / 0x100, n % 0x100]
  }

  /** Reading a u2 gives back the value that was written, wherever it sits in the stream. */
  lemma U2RoundTrip(prefix: seq<Byte>, n: nat, rest: seq<Byte>)
    requires n < 0x1_0000
    ensures U2At(prefix + EncodeU2(n) + rest, |prefix|) == Some((n, |prefix| + 2))
  {
    var bytes := prefix + EncodeU2(n) + rest;
    assert bytes[|prefix|] == n / 0x100 && bytes[|prefix| + 1] == n % 0x100;
  }

  /** How many bytes `skip(n)` passes over: `n`, or what is left when fewer remain. */
  function SkipCount(bytes: seq<Byte>, pos: nat, n: nat): (k: nat)
    ensures k <= n
    ensures k == n <==> n == 0 || pos + n <= |bytes|
  {
    if pos + n <= |bytes| then n else if pos < |bytes| then |bytes| - pos else 0
  }

  class Input {
    const pod: Pod
    const bytes: seq<Byte>
    /** The cursor: the number of bytes read or skipped so far. */
    var pos: nat

    constructor (pod: Pod, bytes: seq<Byte>)
      ensures this.pod == pod && this.bytes == bytes && pos == 0
    {
      this.pod := pod;
      this.bytes := bytes;
      pos := 0;
    }

    method U2() returns (r: Option<nat>)
      modifies this
      ensures r.Some? <==> U2At(bytes, old(pos)).Some?
      ensures r.Some? ==> (r.value, pos) == U2At(bytes, old(pos)).value
    {
      if pos + 2 <= |bytes| {
        r := Some((bytes[pos] as int) * 0x100 + bytes[pos + 1] as int);
        pos := pos + 2;
      } else {
        r := None;
      }
    }

    method Skip(n: nat) returns (skipped: nat)
      modifies this
      ensures skipped == SkipCount(bytes, old(pos), n) && pos == old(pos) + skipped
    {
      skipped := SkipCount(bytes, pos, n);
      pos := pos + skipped;
    }

    method Name() returns (r: Option<string>)
      modifies this
      ensures r.Some? <==> pod.name(bytes, old(pos)).Some?
      ensures r.Some? ==> (r.value, pos) == pod.name(bytes, old(pos)).value
    {
      var step := pod.name(bytes, pos);
      if step.Some? {
        r := Some(step.value.0);
        pos := step.value.1;
      } else {
        r := None;
      }
    }

    method Utf() returns (r: Option<string>)
      modifies this
      ensures r.Some? <==> pod.utf(bytes, old(pos)).Some?
      ensures r.Some? ==> (r.value, pos) == pod.utf(bytes, old(pos)).value
    {
      var step := pod.utf(bytes, pos);
      if step.Some? {
        r := Some(step.value.0);
        pos := step.value.1;
      } else {
        r := None;
      }
    }
  }

  /** `FBuf.read(in)`. */
  method ReadFBuf(input: Input) returns (r: Option<Buf>)
    modifies input
    ensures r.Some? <==> input.pod.buf(input.bytes, old(input.pos)).Some?
    ensures r.Some? ==> (r.value, input.pos) == input.pod.buf(input.bytes, old(input.pos)).value
  {
    var step := input.pod.buf(input.bytes, input.pos);
    if step.Some? {
      r := Some(step.value.0);
      input.pos := step.value.1;
    } else {
      r := None;
    }
  }
}
