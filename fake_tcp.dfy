/** A simulated socket that hands out a fixed message in chunks of random
    length (fake_tcp.hpp). The random draw `std::rand()` is a parameter `r`
    of each read. */
module FakeSocket {

  const UINT_MAX: nat := 0xFFFF_FFFF
  const INT_MAX: nat := 0x7FFF_FFFF

  /** `index_` is an `unsigned int`; storing -1 in it leaves UINT_MAX, which
      marks a message that has been read to the end. */
  const END: nat := UINT_MAX

  /** A read position the reader can hold: inside the message, at its end, or END. */
  predicate ValidIndex(msg: seq<char>, index: nat)
  {
    |msg| <= INT_MAX && (index == END || index <= |msg|)
  }

  /** `std::rand() % bufferSize`: how many characters a read asks for. */
  function Want(r: nat, bufferSize: nat): (w: nat)
    requires 0 < bufferSize
    ensures w < bufferSize
  {
    r % bufferSize
  }

  /** What one `Read` returns and where `index_` is left. */
  datatype Outcome = Outcome(result: int, next: nat)

  /** One `Read` that asks for `want` characters. */
  function ReadStep(msg: seq<char>, index: nat, want: nat): (o: Outcome)
    requires ValidIndex(msg, index)
    ensures ValidIndex(msg, o.next)
    ensures index == END ==> o == Outcome(-1, END)
    ensures index != END ==>
              && 0 <= o.result <= want
              && o.result <= |msg| - index
              && (o.result == want || o.result == |msg| - index)
              && (o.next == END <==> index + o.result == |msg|)
              && (o.next != END ==> o.next == index + o.result)
  {
    if index == END then Outcome(-1, END)
    else
      var left := |msg| - index;
      var readable := if want >= left then left else want;
      var next := index + readable;
      Outcome(readable, if next >= |msg| then END else next)
  }

  /** The part of the message not yet handed out. */
  function Remaining(msg: seq<char>, index: nat): seq<char>
    requires ValidIndex(msg, index)
  {
    if index == END then [] else msg[index..]
  }

  /** The characters one read copies out: none at END. */
  function Chunk(msg: seq<char>, index: nat, want: nat): seq<char>
    requires ValidIndex(msg, index)
  {
    if index == END then [] else msg[index..index + ReadStep(msg, index, want).result]
  }

  /** Where the reader stands after one read per request in `wants`, starting at `index`. */
  function IndexAfter(msg: seq<char>, index: nat, wants: seq<nat>): (i: nat)
    requires ValidIndex(msg, index)
    ensures ValidIndex(msg, i)
    decreases |wants|
  {
    if wants == [] then index
    else IndexAfter(msg, ReadStep(msg, index, wants[0]).next, wants[1..])
  }

  /** The chunks those reads copy out, concatenated. */
  function Received(msg: seq<char>, index: nat, wants: seq<nat>): seq<char>
    requires ValidIndex(msg, index)
    decreases |wants|
  {
    if wants == [] then []
    else Chunk(msg, index, wants[0]) + Received(msg, ReadStep(msg, index, wants[0]).next, wants[1..])
  }

  /** One read splits what remained into the chunk it copies and what remains after it. */
  lemma ChunkThenRemaining(msg: seq<char>, index: nat, want: nat)
    requires ValidIndex(msg, index)
    ensures Remaining(msg, index) == Chunk(msg, index, want) + Remaining(msg, ReadStep(msg, index, want).next)
  {
  }

  /** One more request: one more read after those of `wants`. */
  lemma {:induction false} ReadOneMore(msg: seq<char>, index: nat, wants: seq<nat>, want: nat)
    requires ValidIndex(msg, index)
    ensures IndexAfter(msg, index, wants + [want])
            == ReadStep(msg, IndexAfter(msg, index, wants), want).next
    ensures Received(msg, index, wants + [want])
            == Received(msg, index, wants) + Chunk(msg, IndexAfter(msg, index, wants), want)
    decreases |wants|
  {
    if wants != [] {
      var next := ReadStep(msg, index, wants[0]).next;
      assert (wants + [want])[1..] == wants[1..] + [want];
      ReadOneMore(msg, next, wants[1..], want);
    }
  }

  /** Whatever the requests, what has been received followed by what remains is what remained at the start. */
  lemma {:induction false} ReceivedThenRemaining(msg: seq<char>, index: nat, wants: seq<nat>)
    requires ValidIndex(msg, index)
    ensures Received(msg, index, wants) + Remaining(msg, IndexAfter(msg, index, wants))
            == Remaining(msg, index)
    decreases |wants|
  {
    if wants != [] {
      var next := ReadStep(msg, index, wants[0]).next;
      var chunk := Chunk(msg, index, wants[0]);
      var rest := Received(msg, next, wants[1..]);
      assert Received(msg, index, wants) == chunk + rest;
      assert IndexAfter(msg, index, wants) == IndexAfter(msg, next, wants[1..]);
      ReceivedThenRemaining(msg, next, wants[1..]);
      ChunkThenRemaining(msg, index, wants[0]);
    }
  }

  /** Once a message has been read to its end, the chunks reassemble it exactly. */
  lemma Reassembly(msg: seq<char>, wants: seq<nat>)
    requires |msg| <= INT_MAX
    requires IndexAfter(msg, 0, wants) == END
    ensures Received(msg, 0, wants) == msg
  {
    ReceivedThenRemaining(msg, 0, wants);
  }

  /** Nothing is ever received beyond the message: the chunks always form a prefix of it. */
  lemma ReceivedIsPrefix(msg: seq<char>, wants: seq<nat>)
    requires |msg| <= INT_MAX
    ensures Received(msg, 0, wants) <= msg
  {
    ReceivedThenRemaining(msg, 0, wants);
  }

  /** Once at END, every read returns -1, copies nothing and stays at END. */
  lemma {:induction false} EndIsFinal(msg: seq<char>, wants: seq<nat>)
    requires |msg| <= INT_MAX
    ensures IndexAfter(msg, END, wants) == END
    ensures Received(msg, END, wants) == []
    decreases |wants|
  {
    if wants != [] {
      EndIsFinal(msg, wants[1..]);
    }
  }

  /** A read that is not at END returns fewer characters than the buffer size it was given. */
  lemma ReadFitsBuffer(msg: seq<char>, index: nat, bufferSize: nat, r: nat)
    requires ValidIndex(msg, index) && index != END && 0 < bufferSize
    ensures 0 <= ReadStep(msg, index, Want(r, bufferSize)).result < bufferSize
  {
  }

  /** An empty message gives one read of zero characters, then -1. */
  lemma EmptyMessage(want1: nat, want2: nat)
    ensures ReadStep([], 0, want1) == Outcome(0, END)
    ensures ReadStep([], END, want2) == Outcome(-1, END)
  {
  }

  /** `FakeTcp`: the message and the read position `index_`. */
  class FakeTcp {
    var msg: seq<char>
    var index: nat

    ghost predicate Valid()
      reads this
    {
      ValidIndex(msg, index)
    }

    constructor (m: seq<char>)
      requires |m| <= INT_MAX
      ensures Valid() && msg == m && index == 0
    {
      msg := m;
      index := 0;
    }

    /** `Read`: copy the next chunk into `buff[0..n)` and return `n`, or -1 at the end. */
    method Read(buff: array<char>, bufferSize: nat, r: nat) returns (n: int)
      requires Valid()
      requires index == END || 0 < bufferSize
      requires bufferSize <= buff.Length && bufferSize <= UINT_MAX
      modifies this`index, buff
      ensures Valid()
      ensures old(index) == END ==> n == -1 && index == END
      ensures old(index) != END ==> Outcome(n, index) == ReadStep(msg, old(index), Want(r, bufferSize))
      ensures n < bufferSize
      ensures n >= 0 ==> buff[..n] == msg[old(index)..old(index) + n]
      ensures forall j :: (if n < 0 then 0 else n) <= j < buff.Length ==> buff[j] == old(buff[j])
    {
      if index == END {
        return -1;
      }
      var readable := Want(r, bufferSize);
      var left := |msg| - index;
      if readable >= left {
        readable := left;
      }
      var start, i := index, 0;
      while i != readable
        modifies buff
        invariant 0 <= i <= readable
        invariant forall j :: 0 <= j < i ==> buff[j] == msg[start + j]
        invariant forall j :: i <= j < buff.Length ==> buff[j] == old(buff[j])
      {
        buff[i] := msg[start + i];
        i := i + 1;
      }
      index := index + readable;
      if index >= |msg| {
        index := END;
      }
      return readable;
    }
  }

  /** A read extends what has been received by the chunk it copied, or by nothing at END. */
  lemma ReadExtendsReceived(msg: seq<char>, wants: seq<nat>, want: nat, n: int, next: nat, chunk: seq<char>)
    requires |msg| <= INT_MAX
    requires Outcome(n, next) == ReadStep(msg, IndexAfter(msg, 0, wants), want)
    requires n >= 0 ==> chunk == msg[IndexAfter(msg, 0, wants)..IndexAfter(msg, 0, wants) + n]
    ensures next == IndexAfter(msg, 0, wants + [want])
    ensures n < 0 ==> next == END && Received(msg, 0, wants + [want]) == Received(msg, 0, wants)
    ensures n >= 0 ==> Received(msg, 0, wants + [want]) == Received(msg, 0, wants) + chunk
  {
    ReadOneMore(msg, 0, wants, want);
  }

  const TEST_MSG: string := "1234567890qwert"
  const BUFF_SIZE: nat := 10

  /** `TestFakeTcp`: read TEST_MSG with a 10-character buffer, asking for at most
      9 characters a time, until -1 or until the draws `rs` run out. The last
      buffer cell is never written, so it stays the zero it started as. */
  method TestFakeTcp(rs: seq<nat>) returns (ended: bool, received: seq<char>, terminator: char)
    ensures terminator == '\0'
    ensures received <= TEST_MSG
    ensures ended ==> received == TEST_MSG
  {
    var ftcp := new FakeTcp(TEST_MSG);
    var buffer := new char[BUFF_SIZE](_ => '\0');
    ended, received := false, [];
    ghost var wants: seq<nat> := [];
    var k := 0;
    while k < |rs| && !ended
      invariant 0 <= k <= |rs|
      invariant ftcp.Valid() && ftcp.msg == TEST_MSG
      invariant buffer.Length == BUFF_SIZE && buffer[BUFF_SIZE - 1] == '\0'
      invariant received == Received(TEST_MSG, 0, wants)
      invariant ftcp.index == IndexAfter(TEST_MSG, 0, wants)
      invariant ended ==> ftcp.index == END
    {
      ghost var want := Want(rs[k], BUFF_SIZE - 1);
      var size := ftcp.Read(buffer, BUFF_SIZE - 1, rs[k]);
      if size == -1 {
        ReadExtendsReceived(TEST_MSG, wants, want, size, ftcp.index, []);
        ended := true;
      } else {
        ReadExtendsReceived(TEST_MSG, wants, want, size, ftcp.index, buffer[..size]);
        received := received + buffer[..size];
      }
      wants := wants + [want];
      k := k + 1;
    }
    terminator := buffer[BUFF_SIZE - 1];
    ReceivedIsPrefix(TEST_MSG, wants);
    if ended {
      Reassembly(TEST_MSG, wants);
    }
  }
}
