/**
 * The write callback of the BLE characteristic: a command may arrive in
 * several chunks, which are collected in a buffer until the buffer ends in
 * '}', and the whole buffer is then handed to the command interpreter.
 */
module Reassembler {
  import opened Wrappers
  import opened Command
  import opened Ring

  /** The buffer is not empty and its last character is '}'. */
  predicate EndsInBrace(s: string)
  {
    |s| > 0 && s[|s| - 1] == '}'
  }

  /** The chunks one after the other. */
  function Concat(chunks: seq<string>): string
  {
    if chunks == [] then "" else chunks[0] + Concat(chunks[1..])
  }

  lemma {:induction false} ConcatAppend(chunks: seq<string>, chunk: string)
    ensures Concat(chunks + [chunk]) == Concat(chunks) + chunk
    decreases |chunks|
  {
    if chunks == [] {
      assert chunks + [chunk] == [chunk];
    } else {
      assert (chunks + [chunk])[1..] == chunks[1..] + [chunk];
      ConcatAppend(chunks[1..], chunk);
    }
  }

  /**
   * One write of `chunk` on top of `buffer`: the new buffer and the message
   * handed on, if any.
   */
  function Feed(buffer: string, chunk: string): (string, Option<string>)
  {
    var b := buffer + chunk;
    if EndsInBrace(b) then ("", Some(b)) else (b, None)
  }

  /**
   * A message is handed on exactly when the appended buffer ends in '}', and
   * it is then the whole appended buffer and the buffer empties; otherwise
   * the buffer keeps the chunk. What comes back never ends in '}'.
   */
  lemma FeedDispatches(buffer: string, chunk: string)
    ensures Feed(buffer, chunk).1.Some? <==> EndsInBrace(buffer + chunk)
    ensures Feed(buffer, chunk).1.Some? ==>
      Feed(buffer, chunk).1.value == buffer + chunk && Feed(buffer, chunk).0 == ""
    ensures Feed(buffer, chunk).1.None? ==> Feed(buffer, chunk).0 == buffer + chunk
    ensures !EndsInBrace(Feed(buffer, chunk).0)
  {
  }

  /** A run of writes: the buffer left over and the messages handed on, in order. */
  function Reassemble(buffer: string, chunks: seq<string>): (string, seq<string>)
    decreases |chunks|
  {
    if chunks == [] then (buffer, [])
    else
      var (b, m) := Feed(buffer, chunks[0]);
      var (rest, ms) := Reassemble(b, chunks[1..]);
      (rest, (if m.Some? then [m.value] else []) + ms)
  }

  /**
   * Nothing is lost or duplicated: the messages handed on followed by the
   * buffer left over are exactly the old buffer followed by every chunk.
   */
  lemma {:induction false} ReassembleConserves(buffer: string, chunks: seq<string>)
    ensures Concat(Reassemble(buffer, chunks).1) + Reassemble(buffer, chunks).0 == buffer + Concat(chunks)
    decreases |chunks|
  {
    if chunks != [] {
      var (b, m) := Feed(buffer, chunks[0]);
      var (rest, ms) := Reassemble(b, chunks[1..]);
      ReassembleConserves(b, chunks[1..]);
      assert Concat(chunks) == chunks[0] + Concat(chunks[1..]);
      if m.Some? {
        assert Reassemble(buffer, chunks) == (rest, [m.value] + ms);
        assert ([m.value] + ms)[1..] == ms;
        assert Concat([m.value] + ms) == m.value + Concat(ms);
        assert b == "" && "" + Concat(chunks[1..]) == Concat(chunks[1..]);
        assert m.value == buffer + chunks[0];
      } else {
        assert [] + ms == ms;
        assert Reassemble(buffer, chunks) == (rest, ms);
        assert b == buffer + chunks[0];
      }
    }
  }

  /**
   * Every message handed on is complete (ends in '}'), and after at least one
   * write, or from a buffer that is not complete, the leftover is incomplete.
   */
  lemma {:induction false} ReassembleMessagesComplete(buffer: string, chunks: seq<string>)
    ensures forall i :: 0 <= i < |Reassemble(buffer, chunks).1| ==> EndsInBrace(Reassemble(buffer, chunks).1[i])
    ensures chunks != [] || !EndsInBrace(buffer) ==> !EndsInBrace(Reassemble(buffer, chunks).0)
    decreases |chunks|
  {
    if chunks != [] {
      var (b, m) := Feed(buffer, chunks[0]);
      ReassembleMessagesComplete(b, chunks[1..]);
    }
  }

  lemma PrefixConcat(chunks: seq<string>, k: nat)
    requires 0 < k < |chunks|
    ensures Concat(chunks[..k + 1]) == chunks[0] + Concat(chunks[1..][..k])
  {
    assert chunks[..k + 1][1..] == chunks[1..][..k];
  }

  /** After the first chunk, the prefixes of the remaining chunks are the longer prefixes of all. */
  lemma PrefixesAfterFirst(buffer: string, chunks: seq<string>)
    requires |chunks| > 1
    requires forall k :: 0 < k < |chunks| ==> !EndsInBrace(buffer + Concat(chunks[..k]))
    ensures forall k :: 0 < k < |chunks| - 1 ==> !EndsInBrace(buffer + chunks[0] + Concat(chunks[1..][..k]))
  {
    forall k | 0 < k < |chunks| - 1
      ensures !EndsInBrace(buffer + chunks[0] + Concat(chunks[1..][..k]))
    {
      PrefixConcat(chunks, k);
      assert buffer + Concat(chunks[..k + 1]) == buffer + chunks[0] + Concat(chunks[1..][..k]);
    }
  }

  /**
   * A message split over several writes: when the buffer only becomes
   * complete with the last chunk, exactly one message is handed on - the old
   * buffer followed by all the chunks - and the buffer ends empty.
   */
  lemma {:induction false} FragmentedMessage(buffer: string, chunks: seq<string>)
    requires chunks != []
    requires forall k :: 0 < k < |chunks| ==> !EndsInBrace(buffer + Concat(chunks[..k]))
    requires EndsInBrace(buffer + Concat(chunks))
    ensures Reassemble(buffer, chunks) == ("", [buffer + Concat(chunks)])
    decreases |chunks|
  {
    var b := buffer + chunks[0];
    if |chunks| == 1 {
      assert Concat(chunks) == chunks[0];
      assert Feed(buffer, chunks[0]) == ("", Some(b));
      assert Reassemble("", chunks[1..]) == ("", []);
      assert [b] + [] == [b];
    } else {
      assert chunks[..1] == [chunks[0]];
      assert Concat(chunks[..1]) == chunks[0];
      assert !EndsInBrace(b);
      PrefixesAfterFirst(buffer, chunks);
      assert b + Concat(chunks[1..]) == buffer + Concat(chunks);
      FragmentedMessage(b, chunks[1..]);
      assert Feed(buffer, chunks[0]) == (b, None);
      assert [] + [buffer + Concat(chunks)] == [buffer + Concat(chunks)];
    }
  }

  /**
   * The callback object the characteristic calls on every write. `pending`
   * records the chunks received since the last message was handed on.
   */
  class Callbacks {
    const ring: HurriRing
    var buffer: string
    ghost var pending: seq<string>

    ghost predicate Valid()
      reads this, ring
    {
      ring.Valid() && buffer == Concat(pending) && !EndsInBrace(buffer)
    }

    constructor (ring: HurriRing)
      requires ring.Valid()
      ensures Valid() && this.ring == ring
      ensures buffer == "" && pending == []
    {
      this.ring := ring;
      buffer := "";
      pending := [];
    }

    /**
     * One write of `value`. When the appended buffer ends in '}' the chunks
     * since the last message, joined, are interpreted as one command and the
     * buffer empties; otherwise the chunk is only kept.
     */
    method OnWrite(value: string, decode: string -> Document) returns (ghost dispatched: Option<string>)
      requires Valid()
      requires EndsInBrace(buffer + value) ==> WellTyped(decode(buffer + value))
      modifies this`buffer, this`pending
      modifies ring`state, ring`lastState, ring`colorParam, ring`numberParam, ring`stateChange
      ensures Valid()
      ensures (buffer, dispatched) == Feed(old(buffer), value)
      ensures dispatched.Some? ==> dispatched.value == Concat(old(pending) + [value]) && pending == []
      ensures dispatched.None? ==> pending == old(pending) + [value]
      ensures dispatched.Some? ==>
        ring.Settings() == Interpret(old(ring.Settings()), |dispatched.value|, decode(dispatched.value))
      ensures dispatched.None? ==> ring.Settings() == old(ring.Settings())
    {
      ConcatAppend(pending, value);
      buffer := buffer + value;
      pending := pending + [value];
      if |buffer| > 0 && buffer[|buffer| - 1] == '}' {
        dispatched := Some(buffer);
        ring.HandleBleCommand(buffer, decode);
        buffer := "";
        pending := [];
      } else {
        dispatched := None;
      }
    }
  }
}
