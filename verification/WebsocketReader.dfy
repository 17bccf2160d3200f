/** A websocket connection read as a stream of bytes: whatever does not fit the reader's buffer is kept for the next read. */
module WebsocketReader {
  import opened Wrappers

  type Bytes = seq<bv8>

  /** What receiving the next message leads to. */
  datatype Incoming = Message(bytes: Bytes) | Broken(error: string)

  // ----- The specification: one read, and any number of reads

  /** What a read hands out and what it leaves behind, or the error if there is nothing to hand out. */
  datatype ReadOutcome = Read(out: Bytes, rest: Bytes) | Failed(error: string)

  function Cut(src: Bytes, size: nat): ReadOutcome {
    if |src| > size then Read(src[..size], src[size..]) else Read(src, [])
  }

  /** A message is received only when nothing is left of the one before; nothing else is ever mixed into a read. */
  function ReadOnce(buff: Bytes, next: Incoming, size: nat): ReadOutcome {
    if buff != [] then Cut(buff, size)
    else match next
      case Message(bytes) => Cut(bytes, size)
      case Broken(error) => Failed(error)
  }

  function Min(a: nat, b: nat): nat {
    if a < b then a else b
  }

  function Flatten(messages: seq<Bytes>): Bytes {
    if messages == [] then [] else messages[0] + Flatten(messages[1..])
  }

  lemma {:induction false} FlattenAppend(messages: seq<Bytes>, last: Bytes)
    ensures Flatten(messages + [last]) == Flatten(messages) + last
  {
    if messages != [] {
      FlattenAppend(messages[1..], last);
      assert (messages + [last])[1..] == messages[1..] + [last];
    }
  }

  /** What reads of these sizes return, what is left over, and the messages not received yet. */
  datatype Stream = Stream(outs: seq<Bytes>, buff: Bytes, pending: seq<Bytes>)

  /** The reads end where the next one would have to wait, or fail, for want of a message. */
  function ReadAll(buff: Bytes, messages: seq<Bytes>, sizes: seq<nat>): Stream
    decreases |sizes|
  {
    if sizes == [] || (buff == [] && messages == []) then Stream([], buff, messages)
    else
      var read := ReadOnce(buff, if messages == [] then Broken("") else Message(messages[0]), sizes[0]);
      var later := ReadAll(read.rest, if buff == [] then messages[1..] else messages, sizes[1..]);
      later.(outs := [read.out] + later.outs)
  }

  lemma FirstRead(buff: Bytes, messages: seq<Bytes>, size: nat)
    requires buff != [] || messages != []
    ensures var read := ReadOnce(buff, if messages == [] then Broken("") else Message(messages[0]), size);
            && read.Read? && |read.out| <= size
            && read.out + (read.rest + Flatten(if buff == [] then messages[1..] else messages)) == buff + Flatten(messages)
  {
    var src := if buff != [] then buff else messages[0];
    var cut := Cut(src, size);
    var tail := Flatten(if buff == [] then messages[1..] else messages);
    assert cut.out + cut.rest == src;
    assert cut.out + (cut.rest + tail) == src + tail;
  }

  lemma CutKeeps(before: Bytes, src: Bytes, size: nat)
    ensures before + Cut(src, size).out + Cut(src, size).rest == before + src
  {
  }

  lemma Regroup(a: Bytes, b: Bytes, c: Bytes, d: Bytes)
    ensures a + b + c + d == a + (b + c + d)
  {
  }

  /** Whatever the messages and whatever the sizes, zero among them: what was returned, the leftover, and the messages
      still to come make up the messages sent, in order. */
  lemma {:induction false} NothingIsLost(buff: Bytes, messages: seq<Bytes>, sizes: seq<nat>)
    ensures var s := ReadAll(buff, messages, sizes);
            && Flatten(s.outs) + s.buff + Flatten(s.pending) == buff + Flatten(messages)
            && |s.pending| <= |messages| && s.pending == messages[|messages| - |s.pending|..]
    decreases |sizes|
  {
    if sizes != [] && (buff != [] || messages != []) {
      var read := ReadOnce(buff, if messages == [] then Broken("") else Message(messages[0]), sizes[0]);
      var messages' := if buff == [] then messages[1..] else messages;
      NothingIsLost(read.rest, messages', sizes[1..]);
      FirstRead(buff, messages, sizes[0]);
      var later := ReadAll(read.rest, messages', sizes[1..]);
      assert ([read.out] + later.outs)[1..] == later.outs;
      Regroup(read.out, Flatten(later.outs), later.buff, Flatten(later.pending));
    }
  }

  lemma {:induction false} ReadsAreBounded(buff: Bytes, messages: seq<Bytes>, sizes: seq<nat>, k: nat)
    requires k < |ReadAll(buff, messages, sizes).outs|
    ensures k < |sizes| && |ReadAll(buff, messages, sizes).outs[k]| <= sizes[k]
    decreases |sizes|
  {
    if k > 0 {
      var read := ReadOnce(buff, if messages == [] then Broken("") else Message(messages[0]), sizes[0]);
      ReadsAreBounded(read.rest, if buff == [] then messages[1..] else messages, sizes[1..], k - 1);
    }
  }

  /** Reads that make room for at least one byte each get everything after finitely many: one read for every byte and
      every message suffices. */
  lemma {:induction false} EnoughReadsGetEverything(buff: Bytes, messages: seq<Bytes>, sizes: seq<nat>)
    requires forall i :: 0 <= i < |sizes| ==> sizes[i] > 0
    requires |sizes| >= |buff| + |Flatten(messages)| + |messages|
    ensures Flatten(ReadAll(buff, messages, sizes).outs) == buff + Flatten(messages)
    decreases |sizes|
  {
    if buff != [] || messages != [] {
      var read := ReadOnce(buff, if messages == [] then Broken("") else Message(messages[0]), sizes[0]);
      var messages' := if buff == [] then messages[1..] else messages;
      FirstRead(buff, messages, sizes[0]);
      assert |read.out| + |read.rest| + |Flatten(messages')| == |buff| + |Flatten(messages)|;
      EnoughReadsGetEverything(read.rest, messages', sizes[1..]);
      var later := ReadAll(read.rest, messages', sizes[1..]);
      assert ([read.out] + later.outs)[1..] == later.outs;
    }
  }

  // ----- The connection

  class WebsocketConnection {
    var buff: array<bv8>
    ghost var received: seq<Bytes>
    ghost var returned: Bytes

    /** The bytes returned so far and the leftover are the messages received so far. */
    ghost predicate Valid()
      reads this, buff
    {
      returned + buff[..] == Flatten(received)
    }

    constructor ()
      ensures Valid() && fresh(buff) && buff.Length == 0 && received == [] && returned == []
    {
      buff := new bv8[0];
      received, returned := [], [];
    }

    static method Copy(dst: array<bv8>, src: Bytes) returns (n: nat)
      modifies dst
      ensures n == if |src| < dst.Length then |src| else dst.Length
      ensures dst[..n] == src[..n] && dst[n..] == old(dst[n..])
    {
      n := if |src| < dst.Length then |src| else dst.Length;
      forall i | 0 <= i < n {
        dst[i] := src[i];
      }
    }

    /** Hands out as much as fits and keeps the remainder in a buffer of its own. */
    method Deliver(dst: array<bv8>, src: Bytes) returns (n: nat)
      requires dst != buff
      modifies this`buff, dst
      ensures (buff == old(buff) || fresh(buff)) && n <= dst.Length
      ensures old(buff.Length) == 0 ==> Cut(src, dst.Length) == Read(dst[..n], buff[..])
      ensures dst[n..] == old(dst[n..])
    {
      if |src| > dst.Length {
        n := Copy(dst, src[..dst.Length]);
        var r := src[dst.Length..];
        var kept := new bv8[|r|];
        var _ := Copy(kept, r);
        assert kept[..] == r;
        buff := kept;
      } else {
        n := Copy(dst, src);
      }
    }

    /** `next` is what receiving a message would lead to; it is received only if the leftover is used up. */
    method ReadInto(dst: array<bv8>, next: Incoming) returns (n: nat, err: Option<string>)
      requires Valid() && dst != buff
      modifies this, dst
      ensures Valid() && (buff == old(buff) || fresh(buff)) && n <= dst.Length
      ensures ReadOnce(old(buff[..]), next, dst.Length) ==
                match err { case None => Read(dst[..n], buff[..]) case Some(e) => Failed(e) }
      ensures err.Some? ==> n == 0 && buff[..] == [] && returned == Flatten(received)
      ensures old(buff.Length) > 0 ==> err.None? && n == Min(old(buff.Length), dst.Length)
      ensures old(buff.Length) == 0 && next.Message? ==> err.None? && n == Min(|next.bytes|, dst.Length)
      ensures old(buff.Length) == 0 && next.Broken? ==> err == Some(next.error)
      ensures dst[n..] == old(dst[n..])
      ensures returned == old(returned) + dst[..n]
      ensures received == if old(buff.Length) == 0 && next.Message? then old(received) + [next.bytes] else old(received)
    {
      var src: Bytes;
      if buff.Length > 0 {
        src := buff[..];
        buff := new bv8[0];
      } else if next.Message? {
        src := next.bytes;
        FlattenAppend(received, next.bytes);
        received := received + [next.bytes];
      } else {
        return 0, Some(next.error);
      }
      assert returned + src == Flatten(received);
      n := Deliver(dst, src);
      CutKeeps(returned, src, dst.Length);
      returned := returned + dst[..n];
      err := None;
    }
  }
}
