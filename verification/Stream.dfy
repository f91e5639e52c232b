// Byte streams as the network delivers them: a script of read results. Reading a fixed number of bytes from
// a stream depends on its bytes and not on how they are cut.

module Streams {
  import opened Bits
  import opened Wire

  datatype ReadError = NoError | EOF | OtherError

  // The data one call can deliver and the error delivered with the last of it.
  datatype Event = Event(data: Bytes, err: ReadError)

  // One Read into a buffer with room for `room` bytes: the data, the error, and the events left.
  function ReadStep(script: seq<Event>, room: nat): (r: (Bytes, ReadError, seq<Event>))
    ensures |r.0| <= room
  {
    if script == [] then ([], EOF, [])
    else
      var e := script[0];
      if |e.data| > room then (e.data[..room], NoError, [Event(e.data[room..], e.err)] + script[1..])
      else (e.data, e.err, script[1..])
  }

  // Exactly n bytes, by as many reads as it takes; an empty read or any error fails, even when the error
  // comes with the last bytes asked for.
  function ReadFull(script: seq<Event>, n: nat): Option<(Bytes, seq<Event>)>
    decreases n
  {
    if n == 0 then Some(([], script))
    else
      var step := ReadStep(script, n);
      if step.0 == [] || step.1 != NoError then None
      else
        var more :- ReadFull(step.2, n - |step.0|);
        Some((step.0 + more.0, more.1))
  }

  function AllBytes(script: seq<Event>): Bytes {
    if script == [] then [] else script[0].data + AllBytes(script[1..])
  }

  // The bytes that can be read without meeting an empty read or an error: those of the error-free events up
  // to the first empty or failing one, and all but the last byte of that one.
  function Available(script: seq<Event>): (n: nat)
    ensures n <= |AllBytes(script)|
  {
    if script == [] || script[0].data == [] then 0
    else if script[0].err == NoError then |script[0].data| + Available(script[1..])
    else |script[0].data| - 1
  }

  // Error-free, non-empty reads.
  predicate Clean(script: seq<Event>) {
    forall i :: 0 <= i < |script| ==> script[i].data != [] && script[i].err == NoError
  }

  lemma {:induction false} CleanAvailable(script: seq<Event>)
    requires Clean(script)
    ensures Available(script) == |AllBytes(script)|
    decreases |script|
  {
    if script != [] {
      CleanAvailable(script[1..]);
    }
  }

  // Reads that end with an error make all bytes but the last available.
  lemma {:induction false} AvailableBeforeError(before: seq<Event>, last: Event)
    requires Clean(before) && last.data != [] && last.err != NoError
    ensures AllBytes(before + [last]) == AllBytes(before) + last.data
    ensures Available(before + [last]) == |AllBytes(before)| + |last.data| - 1
    decreases |before|
  {
    var script := before + [last];
    if before == [] {
      assert script == [last] && script[1..] == [];
    } else {
      assert script[1..] == before[1..] + [last];
      AvailableBeforeError(before[1..], last);
    }
  }

  lemma ReadStepBytes(script: seq<Event>, n: nat)
    requires n > 0
    ensures var r := ReadStep(script, n);
            && AllBytes(script) == r.0 + AllBytes(r.2)
            && (r.0 == [] || r.1 != NoError ==> Available(script) < n)
            && (r.0 != [] && r.1 == NoError ==> Available(script) == |r.0| + Available(r.2))
            && (Clean(script) ==> Clean(r.2))
  {
    if script != [] {
      var e := script[0];
      if |e.data| > n {
        var left := [Event(e.data[n..], e.err)] + script[1..];
        assert left[1..] == script[1..];
        assert e.data == e.data[..n] + e.data[n..];
      }
    }
  }

  // Reading n bytes succeeds exactly when n bytes are available, and takes exactly the first n.
  lemma {:induction false} ReadFullExact(script: seq<Event>, n: nat)
    ensures ReadFull(script, n).Some? <==> n <= Available(script)
    ensures n <= Available(script) ==>
      var bytes, rest := ReadFull(script, n).value.0, ReadFull(script, n).value.1;
      && bytes == AllBytes(script)[..n] && |bytes| == n
      && AllBytes(rest) == AllBytes(script)[n..]
      && Available(rest) == Available(script) - n
      && (Clean(script) ==> Clean(rest))
    decreases n
  {
    hide ReadStep, AllBytes, Available, Clean;
    if n > 0 {
      ReadStepBytes(script, n);
      var r := ReadStep(script, n);
      if r.0 != [] && r.1 == NoError {
        ReadFullExact(r.2, n - |r.0|);
        if n <= Available(script) {
          assert AllBytes(script)[..n] == r.0 + AllBytes(r.2)[..n - |r.0|];
          assert AllBytes(script)[n..] == AllBytes(r.2)[n - |r.0|..];
        }
      }
    }
  }

  // Two ways to cut the same bytes into error-free reads.
  lemma ChunkingIrrelevant(a: seq<Event>, b: seq<Event>, n: nat)
    requires Clean(a) && Clean(b) && AllBytes(a) == AllBytes(b)
    ensures ReadFull(a, n).Some? <==> ReadFull(b, n).Some?
    ensures ReadFull(a, n).Some? ==>
      && ReadFull(a, n).value.0 == ReadFull(b, n).value.0
      && AllBytes(ReadFull(a, n).value.1) == AllBytes(ReadFull(b, n).value.1)
  {
    ReadFullExact(a, n);
    ReadFullExact(b, n);
    CleanAvailable(a);
    CleanAvailable(b);
  }

  class Reader {
    var script: seq<Event>

    constructor (script: seq<Event>)
      ensures this.script == script
    {
      this.script := script;
    }

    // Reads into buf[lo..hi].
    method Read(buf: array<byte>, lo: nat, hi: nat) returns (n: nat, err: ReadError)
      requires lo <= hi <= buf.Length
      modifies this, buf
      ensures var step := ReadStep(old(script), hi - lo);
              && n == |step.0| && err == step.1 && script == step.2
              && Written(buf[..], old(buf[..]), lo, step.0)
    {
      var step := ReadStep(script, hi - lo);
      script := step.2;
      Copy(buf, lo, step.0);
      n, err := |step.0|, step.1;
    }

    // The next byte, left in the stream.
    method Peek() returns (b: Option<byte>)
      requires Clean(script)
      ensures b == if AllBytes(script) == [] then None else Some(AllBytes(script)[0])
    {
      if script == [] {
        return None;
      }
      return Some(script[0].data[0]);
    }

    // Drops the next byte.
    method Discard() returns (ok: bool)
      requires Clean(script)
      modifies this
      ensures Clean(script)
      ensures ok <==> old(AllBytes(script)) != []
      ensures ok ==> AllBytes(script) == old(AllBytes(script))[1..]
    {
      if script == [] {
        return false;
      }
      ghost var all := AllBytes(script);
      var data, rest := script[0].data[1..], script[1..];
      assert all == [script[0].data[0]] + (data + AllBytes(rest));
      script := if data == [] then rest else [Event(data, NoError)] + rest;
      assert data != [] ==> script[1..] == rest;
      return true;
    }
  }

  // Fills buffer[lo..hi] from the reader.
  method ReadFromReader(input: Reader, buffer: array<byte>, lo: nat, hi: nat) returns (ok: bool)
    requires lo <= hi <= buffer.Length
    modifies input, buffer
    ensures match ReadFull(old(input.script), hi - lo)
            case Some((bytes, rest)) =>
              ok && input.script == rest && |bytes| == hi - lo && Written(buffer[..], old(buffer[..]), lo, bytes)
            case None => !ok
  {
    hide ReadStep, ReadFull, Written;
    var size := hi - lo;
    var read := 0;
    ghost var original := buffer[..];
    ghost var done: Bytes := [];
    ReadStart(input.script, size);
    NothingWritten(original, lo);
    while read < size
      invariant 0 <= read <= size && |done| == read
      invariant Written(buffer[..], original, lo, done)
      invariant ReadFull(old(input.script), size) == ReadMore(done, ReadFull(input.script, size - read))
    {
      ghost var before, script := buffer[..], input.script;
      ReadAgain(done, script, size - read);
      var n, err := input.Read(buffer, lo + read, hi);
      if n == 0 || err == EOF {
        return false;
      }
      if err != NoError {
        return false;
      }
      ghost var bytes := ReadStep(script, size - read).0;
      WrittenTwice(original, lo, done, before, bytes, buffer[..]);
      done := done + bytes;
      read := read + n;
    }
    ReadEnd(done, input.script);
    return true;
  }

  function ReadMore(done: Bytes, r: Option<(Bytes, seq<Event>)>): Option<(Bytes, seq<Event>)> {
    match r
    case Some((bytes, rest)) => Some((done + bytes, rest))
    case None => None
  }

  lemma ReadStart(script: seq<Event>, n: nat)
    ensures ReadMore([], ReadFull(script, n)) == ReadFull(script, n)
  {
    hide ReadStep, ReadFull;
    if ReadFull(script, n).Some? {
      assert [] + ReadFull(script, n).value.0 == ReadFull(script, n).value.0;
    }
  }

  lemma ReadAgain(done: Bytes, script: seq<Event>, n: nat)
    requires n > 0
    ensures var step := ReadStep(script, n);
            ReadMore(done, ReadFull(script, n))
            == if step.0 == [] || step.1 != NoError then None
               else ReadMore(done + step.0, ReadFull(step.2, n - |step.0|))
  {
    hide ReadStep;
    var step := ReadStep(script, n);
    if step.0 != [] && step.1 == NoError {
      var more := ReadFull(step.2, n - |step.0|);
      assert more.Some? ==> done + (step.0 + more.value.0) == done + step.0 + more.value.0;
    }
  }

  lemma ReadEnd(done: Bytes, script: seq<Event>)
    ensures ReadMore(done, ReadFull(script, 0)) == Some((done, script))
  {
    assert done + [] == done;
  }
}
