/** Sending a file to another brick: the sender's states, a link that may cut messages anew, and what the other
    brick ends up with. */
module FileTransfers {
  import opened Words
  import opened Receivers

  const FILETXTOUT := 30000

  // ---- the sender ----

  function Min(a: int, b: int): int { if a < b then a else b }

  /** The data of the next message of a file of which rest is left. */
  function NextData(rest: seq<byte>): (r: seq<byte>)
    ensures |r| == Min(|rest|, MAX_DATA)
  {
    rest[..Min(|rest|, MAX_DATA)]
  }

  /** A row of bytes in pieces of the buffer's size. */
  function Pieces(s: seq<byte>): seq<seq<byte>> {
    if |s| <= SIZE_OF_BTBUF then (if s == [] then [] else [s]) else [s[..SIZE_OF_BTBUF]] + Pieces(s[SIZE_OF_BTBUF..])
  }

  /** The chunks in which the sender hands a message to the link: the first one is two bytes short. */
  function AsSent(message: seq<byte>): seq<seq<byte>> {
    if |message| <= SIZE_OF_BTBUF - 2 then [message]
    else [message[..SIZE_OF_BTBUF - 2]] + Pieces(message[SIZE_OF_BTBUF - 2..])
  }

  lemma {:induction false} PiecesJoin(s: seq<byte>)
    ensures Joined(Pieces(s)) == s
    ensures forall k :: 0 <= k < |Pieces(s)| ==> 0 < |Pieces(s)[k]| <= SIZE_OF_BTBUF
  {
    if |s| > SIZE_OF_BTBUF {
      PiecesJoin(s[SIZE_OF_BTBUF..]);
      assert Pieces(s)[1..] == Pieces(s[SIZE_OF_BTBUF..]);
    } else if s != [] {
      assert Joined([s]) == s + Joined([]);
    }
  }

  /** A link that passes chunks on as they are sent delivers; it is trusted exactly with messages not of 249 bytes
      of data. */
  lemma AsSentDelivers(handle: byte, data: seq<byte>)
    ensures Delivers(AsSent(Message(handle, data)), Message(handle, data))
    ensures GoodStart(AsSent(Message(handle, data)), Message(handle, data)) <==> |data| != 249
  {
    var message := Message(handle, data);
    if |message| > SIZE_OF_BTBUF - 2 {
      PiecesJoin(message[SIZE_OF_BTBUF - 2..]);
      assert AsSent(message)[1..] == Pieces(message[SIZE_OF_BTBUF - 2..]);
      assert message[..SIZE_OF_BTBUF - 2] + message[SIZE_OF_BTBUF - 2..] == message;
    } else {
      assert Joined([message]) == message + Joined([]);
    }
  }

  /** The data behind the first chunk of a message. */
  function Behind(data: seq<byte>): seq<byte> {
    data[Min(|data|, SIZE_OF_BTBUF - 5)..]
  }

  lemma AsSentParts(handle: byte, data: seq<byte>)
    ensures AsSent(Message(handle, data)) == [Message(handle, data[..Min(|data|, SIZE_OF_BTBUF - 5)])] + Pieces(Behind(data))
  {
    var message, n := Message(handle, data), Min(|data|, SIZE_OF_BTBUF - 5);
    assert message[..n + 3] == Message(handle, data[..n]);
    assert message[n + 3..] == Behind(data);
    if |message| <= SIZE_OF_BTBUF - 2 {
      assert message[..n + 3] == message;
      assert Behind(data) == [];
    }
  }

  lemma {:induction false} PiecesGrow(s: seq<byte>, c: seq<byte>)
    requires |s| % SIZE_OF_BTBUF == 0 && 0 < |c| <= SIZE_OF_BTBUF
    ensures Pieces(s + c) == Pieces(s) + [c]
  {
    if |s| == 0 {
      assert s + c == c;
    } else if |s| > SIZE_OF_BTBUF {
      PiecesGrow(s[SIZE_OF_BTBUF..], c);
      assert (s + c)[SIZE_OF_BTBUF..] == s[SIZE_OF_BTBUF..] + c;
      assert (s + c)[..SIZE_OF_BTBUF] == s[..SIZE_OF_BTBUF];
    } else {
      assert (s + c)[SIZE_OF_BTBUF..] == c && (s + c)[..SIZE_OF_BTBUF] == s;
    }
  }

  /** The reply that the sender waits for; what it says about the number of bytes is not looked at. */
  predicate Acknowledges(inBuf: seq<byte>, handle: byte) {
    |inBuf| == 6 && inBuf[0] == REPLY_CMD && inBuf[1] == WRITE && inBuf[2] == SUCCESS && inBuf[3] == handle
  }

  /** What the sender takes for an acknowledgement are the replies of success for its handle, to any number of bytes, and
      nothing else: no other status and no other handle. */
  lemma AcknowledgesExactly(inBuf: seq<byte>, handle: byte)
    ensures Acknowledges(inBuf, handle) <==> exists n: nat :: inBuf == Reply(handle, n)
    ensures |inBuf| == 6 && inBuf[2] != 0 ==> !Acknowledges(inBuf, handle)
  {
    if Acknowledges(inBuf, handle) {
      var n := (inBuf[4] as int) + 0x100 * (inBuf[5] as int);
      assert n % 0x100 == inBuf[4] && n / 0x100 % 0x100 == inBuf[5];
      assert inBuf == Reply(handle, n);
    }
  }

  /** States 3 to 6 of UPD_SENDFILE; 8 is where a failed transfer ends. */
  class Sender {
    const source: seq<byte>
    const dstHandle: byte
    /** How much the loader has read of the source. */
    var position: nat
    var remFileSize: nat
    var remMsgSize: nat
    var state: nat
    var timer: nat

    /** Read bytes and bytes to go make the file; a message under way has its rest in the file. */
    predicate Valid()
      reads this
    {
      && position + remFileSize == |source| && remMsgSize <= Min(remFileSize, MAX_DATA)
      && (state == 4 <==> remMsgSize > 0) && state in {3, 4, 5, 6, 8}
    }

    constructor (file: seq<byte>, handle: byte)
      ensures Valid() && state == 3 && position == 0 && source == file && dstHandle == handle
    {
      source, dstHandle, position, remFileSize, remMsgSize, state, timer := file, handle, 0, |file|, 0, 3, 0;
    }

    /** State 3: the header and the first bytes of a message. */
    method SendWrite() returns (chunk: seq<byte>, msgSize: word)
      requires Valid() && state == 3
      modifies `position, `remFileSize, `remMsgSize, `state, `timer
      ensures Valid() && (state == 4 || state == 5) && timer == 0
      ensures var data := NextData(source[old(position)..]);
        && msgSize == |data| + 3 && chunk == Message(dstHandle, data[..Min(|data|, SIZE_OF_BTBUF - 5)])
        && position == old(position) + Min(|data|, SIZE_OF_BTBUF - 5) && position + remMsgSize == old(position) + |data|
    {
      timer := 0;
      if remFileSize > MAX_DATA {
        remMsgSize := MAX_DATA;
      } else {
        remMsgSize := remFileSize;
      }
      var length;
      if remMsgSize > SIZE_OF_BTBUF - 5 {
        length := SIZE_OF_BTBUF - 5;
        state := 4;
      } else {
        length := remMsgSize;
        state := 5;
      }
      chunk := Message(dstHandle, source[position..position + length]);
      position := position + length;
      msgSize := ToWord(remMsgSize + 3);
      remMsgSize := remMsgSize - length;
      remFileSize := remFileSize - length;
    }

    /** State 4, when the transmit buffer is empty. */
    method SendMore() returns (chunk: seq<byte>)
      requires Valid() && state == 4
      modifies `position, `remFileSize, `remMsgSize, `state, `timer
      ensures Valid() && timer == 0 && (state == 4 || state == 5)
      ensures |chunk| == Min(old(remMsgSize), SIZE_OF_BTBUF) && position == old(position) + |chunk|
      ensures chunk == source[old(position)..position]
      ensures remMsgSize == old(remMsgSize) - |chunk|
    {
      timer := 0;
      var length;
      if remMsgSize >= SIZE_OF_BTBUF {
        length := SIZE_OF_BTBUF;
      } else {
        length := remMsgSize;
      }
      remMsgSize := remMsgSize - length;
      remFileSize := remFileSize - length;
      chunk := source[position..position + length];
      position := position + length;
      if remMsgSize == 0 {
        state := 5;
        timer := 0;
      }
    }

    /** One tick in state 5; inBuf is empty until a reply has come. */
    method WriteAck(inBuf: seq<byte>)
      requires Valid() && state == 5
      modifies `state, `timer
      ensures Valid()
      ensures state ==
        if old(timer) >= FILETXTOUT then 8
        else if !Acknowledges(inBuf, dstHandle) then 5
        else if remFileSize > 0 then 3 else 6
      ensures timer == if old(timer) >= FILETXTOUT then old(timer) else old(timer) + 1
    {
      if |inBuf| == 6 {
        if inBuf[1] == WRITE && inBuf[0] == REPLY_CMD && inBuf[3] == dstHandle {
          if inBuf[2] == SUCCESS {
            if remFileSize != 0 {
              state := 3;
            } else {
              state := 6;
            }
          }
        }
      }
      if timer >= FILETXTOUT {
        state := 8;
      } else {
        timer := timer + 1;
      }
    }

    /** Ticks in state 5 with inBuf in the input buffer, until it is accepted or time is up */
    method AwaitAck(inBuf: seq<byte>)
      requires Valid() && state == 5 && timer == 0
      modifies `state, `timer
      ensures Valid() && state == if !Acknowledges(inBuf, dstHandle) then 8 else if remFileSize > 0 then 3 else 6
    {
      while state == 5
        invariant Valid() && timer <= FILETXTOUT
        invariant state == 5 ==> timer == 0 || !Acknowledges(inBuf, dstHandle)
        invariant state != 5 ==> state == if !Acknowledges(inBuf, dstHandle) then 8 else if remFileSize > 0 then 3 else 6
        decreases state == 5, FILETXTOUT - timer
      {
        WriteAck(inBuf);
      }
    }

    /** Ticks in state 4 until the message is out. */
    method SendRest() returns (chunks: seq<seq<byte>>)
      requires Valid() && state == 4
      modifies `position, `remFileSize, `remMsgSize, `state, `timer
      ensures Valid() && state == 5 && timer == 0 && position == old(position) + old(remMsgSize)
      ensures chunks == Pieces(source[old(position)..position])
    {
      hide Pieces;
      ghost var from, end := position, position + remMsgSize;
      chunks := [];
      NoPieces(source[from..from]);
      while state == 4
        invariant Valid() && (state == 4 || (state == 5 && timer == 0))
        invariant from <= position && position + remMsgSize == end
        invariant state == 4 ==> (position - from) % SIZE_OF_BTBUF == 0
        invariant chunks == Pieces(source[from..position])
        decreases remMsgSize
      {
        ghost var at := position;
        var more := SendMore();
        chunks := chunks + [more];
        assert source[from..position] == source[from..at] + more;
        PiecesGrow(source[from..at], more);
      }
    }

    /** A whole message, up to the wait for its reply: its chunks add up to the size it declares. */
    method SendMessage() returns (chunks: seq<seq<byte>>, msgSize: word)
      requires Valid() && state == 3
      modifies `position, `remFileSize, `remMsgSize, `state, `timer
      ensures Valid() && state == 5 && timer == 0
      ensures var data := NextData(source[old(position)..]);
        && position == old(position) + |data| && msgSize == |Message(dstHandle, data)|
        && chunks == AsSent(Message(dstHandle, data)) && Joined(chunks) == Message(dstHandle, data)
    {
      hide Pieces, AsSent, Joined;
      ghost var start := position;
      ghost var data := NextData(source[start..]);
      AsSentDelivers(dstHandle, data);
      AsSentParts(dstHandle, data);
      var chunk;
      chunk, msgSize := SendWrite();
      chunks := [chunk];
      assert Behind(data) == source[position..position + remMsgSize];
      if state == 4 {
        var more := SendRest();
        chunks := chunks + more;
      } else {
        NoPieces(Behind(data));
      }
    }
  }

  lemma NoPieces(s: seq<byte>)
    requires s == []
    ensures Pieces(s) == []
  {
  }

  // ---- end to end ----

  /** How many messages a file of n bytes takes: at least one. */
  function Messages(n: nat): nat {
    if n == 0 then 1 else (n + MAX_DATA - 1) / MAX_DATA
  }

  /** How much of a file of n bytes is sent in k messages. */
  function SentIn(n: nat, k: nat): nat {
    Min(k * MAX_DATA, n)
  }

  /** The data of message i. */
  function Part(file: seq<byte>, i: nat): (r: seq<byte>)
    ensures |r| <= MAX_DATA
  {
    if i * MAX_DATA <= |file| then NextData(file[i * MAX_DATA..]) else []
  }

  /** The link may cut the chunks of a message anew if it keeps order and size; should the first one be as long as
      the rest, none is shorter than the header it might be read to begin with. */
  ghost predicate Relayed(link: seq<seq<byte>> -> seq<seq<byte>>, handle: byte, data: seq<byte>) {
    var message := Message(handle, data);
    var chunks := link(AsSent(message));
    Delivers(chunks, message) && (GoodStart(chunks, message) || forall k :: 0 <= k < |chunks| ==> Readable(chunks[k]))
  }

  ghost predicate Relays(link: seq<seq<byte>> -> seq<seq<byte>>) {
    forall handle, data :: |data| <= MAX_DATA ==> Relayed(link, handle, data)
  }

  /** Message i as it reaches the receiver */
  function Arriving(link: seq<seq<byte>> -> seq<seq<byte>>, handle: byte, file: seq<byte>, i: nat): seq<seq<byte>> {
    link(AsSent(Message(handle, Part(file, i))))
  }

  /** It starts with a chunk that the receiver does not take for all of it. */
  ghost predicate Trusted(link: seq<seq<byte>> -> seq<seq<byte>>, handle: byte, file: seq<byte>, i: nat) {
    GoodStart(Arriving(link, handle, file, i), Message(handle, Part(file, i)))
  }

  ghost predicate AllTrusted(link: seq<seq<byte>> -> seq<seq<byte>>, handle: byte, file: seq<byte>, k: nat) {
    forall i :: 0 <= i < k ==> Trusted(link, handle, file, i)
  }

  /** The receiver after k messages */
  function Received(link: seq<seq<byte>> -> seq<seq<byte>>, handle: byte, file: seq<byte>, k: nat): Intake {
    if k == 0 then Idle else TakeAll(Received(link, handle, file, k - 1), handle, Arriving(link, handle, file, k - 1))
  }

  lemma LastMessage(n: nat, i: nat)
    ensures i < Messages(n) <==> i == 0 || i * MAX_DATA < n
  {
  }

  lemma NothingSent(n: nat)
    ensures SentIn(n, 0) == 0 && 0 < Messages(n)
  {
  }

  lemma NextPart(file: seq<byte>, k: nat)
    requires k < Messages(|file|)
    ensures 0 <= SentIn(|file|, k) <= SentIn(|file|, k) + |Part(file, k)| == SentIn(|file|, k + 1) <= |file|
    ensures file[..SentIn(|file|, k)] + Part(file, k) == file[..SentIn(|file|, k + 1)]
    ensures Part(file, k) == NextData(file[SentIn(|file|, k)..])
    ensures k + 1 < Messages(|file|) <==> SentIn(|file|, k + 1) < |file|
  {
    LastMessage(|file|, k);
    LastMessage(|file|, k + 1);
  }

  /** As long as no message is mistaken the file grows by what is sent; from the first mistaken one on it stays
      shorter. */
  lemma {:induction false} ReceivedSoFar(link: seq<seq<byte>> -> seq<seq<byte>>, handle: byte, file: seq<byte>, k: nat)
    requires Relays(link) && k <= Messages(|file|)
    ensures !Received(link, handle, file, k).extMode
    ensures if AllTrusted(link, handle, file, k) then Received(link, handle, file, k).file == file[..SentIn(|file|, k)]
            else |Received(link, handle, file, k).file| < SentIn(|file|, k)
  {
    hide Delivers, GoodStart, AsSent, Message, TakeAll, Part, Messages, SentIn;
    if k == 0 {
      NothingSent(|file|);
    } else {
      ReceivedSoFar(link, handle, file, k - 1);
      NextPart(file, k - 1);
      var data, r := Part(file, k - 1), Received(link, handle, file, k - 1);
      assert Relayed(link, handle, data);
      if Trusted(link, handle, file, k - 1) {
        GoodMessage(r, handle, _ => [], Arriving(link, handle, file, k - 1), data);
      } else {
        MistakenMessage(r, handle, _ => [], Arriving(link, handle, file, k - 1), data);
      }
    }
  }

  /** The file is complete exactly when all messages have been sent and none was mistaken for a short one. */
  lemma CompleteExactly(link: seq<seq<byte>> -> seq<seq<byte>>, handle: byte, file: seq<byte>, k: nat)
    requires Relays(link) && 0 < k <= Messages(|file|)
    ensures Received(link, handle, file, k).file == file <==> k == Messages(|file|) && AllTrusted(link, handle, file, k)
  {
    ReceivedSoFar(link, handle, file, k);
    NextPart(file, k - 1);
  }

  ghost predicate PassesOn(link: seq<seq<byte>> -> seq<seq<byte>>) {
    forall chunks :: link(chunks) == chunks
  }

  /** A link that passes on the chunks as they are sent relays. */
  lemma PassingOnRelays(link: seq<seq<byte>> -> seq<seq<byte>>)
    requires PassesOn(link)
    ensures Relays(link)
  {
    forall handle: byte, data: seq<byte> | |data| <= MAX_DATA ensures Relayed(link, handle, data) {
      AsSentDelivers(handle, data);
    }
  }

  /** Over such a link a file arrives complete exactly when its last message does not carry 249 bytes. */
  lemma ArrivesExactly(link: seq<seq<byte>> -> seq<seq<byte>>, handle: byte, file: seq<byte>)
    requires PassesOn(link)
    ensures Received(link, handle, file, Messages(|file|)).file == file <==> |file| % MAX_DATA != 249
  {
    hide Received;
    PassingOnRelays(link);
    var last := |file| / MAX_DATA;
    forall i: nat ensures Trusted(link, handle, file, i) <==> |Part(file, i)| != 249 {
      AsSentDelivers(handle, Part(file, i));
    }
    forall i | 0 <= i < Messages(|file|) ensures |Part(file, i)| == 249 <==> i == last && |file| % MAX_DATA == 249 {
      LastMessage(|file|, i);
    }
    LastMessage(|file|, last);
    CompleteExactly(link, handle, file, Messages(|file|));
  }

  /** Of 249 zero bytes 123 arrive, and the reply to the first chunk is one that the sender accepts for the whole
      file. */
  lemma LostBytes(link: seq<seq<byte>> -> seq<seq<byte>>, handle: byte, others: seq<byte> -> seq<byte>)
    requires PassesOn(link)
    ensures var file := seq(249, _ => 0);
      && Messages(|file|) == 1 && Received(link, handle, file, 1).file == seq(123, _ => 0)
      && Acknowledges(Answers(Idle, handle, others, Arriving(link, handle, file, 0))[0], handle)
  {
    var file: seq<byte> := seq(249, _ => 0);
    var chunks := [Message(handle, file[..123]), file[123..]];
    assert Arriving(link, handle, file, 0) == chunks by {
      assert Part(file, 0) == file;
      AsSentParts(handle, file);
    }
    var r := Take(Idle, handle, chunks[0], 126);
    assert chunks[1..] == [file[123..]] && Joined(chunks[1..]) == file[123..] + Joined([]);
    assert TakeAll(Idle, handle, chunks) == TakeAll(r, handle, chunks[1..]) == Take(r, handle, file[123..], 0);
    assert chunks[0][3..] == file[..123] == seq(123, _ => 0);
    assert Received(link, handle, file, 1) == TakeAll(Received(link, handle, file, 0), handle, chunks);
  }

  /** The replies that are in the sender's buffer when it waits: the only one, if there is one and it came last;
      anything otherwise. */
  ghost predicate Hears(medium: seq<seq<byte>> -> seq<byte>) {
    forall answers, reply :: AnsweredAtEnd(answers, reply) ==> medium(answers) == reply
  }

  /** What the next message needs of the receiver, and what the sender hears of it */
  lemma NextMessage(link: seq<seq<byte>> -> seq<seq<byte>>, medium: seq<seq<byte>> -> seq<byte>, handle: byte,
                    others: seq<byte> -> seq<byte>, file: seq<byte>, k: nat)
    requires Relays(link) && Hears(medium) && k < Messages(|file|)
    ensures var r, arriving := Received(link, handle, file, k), Arriving(link, handle, file, k);
      && Fits(arriving) && |Joined(arriving)| < 0x1_0000 && Legible(r, handle, arriving)
      && (Trusted(link, handle, file, k) ==> Acknowledges(medium(Answers(r, handle, others, arriving)), handle))
  {
    hide GoodStart, AsSent, Message, TakeAll, Part, Messages, Legible, Received, Joined, AnsweredAtEnd;
    var data, r, arriving := Part(file, k), Received(link, handle, file, k), Arriving(link, handle, file, k);
    ReceivedSoFar(link, handle, file, k);
    assert Relayed(link, handle, data);
    MessageIsLegible(r, handle, arriving, data);
    if Trusted(link, handle, file, k) {
      GoodMessage(r, handle, others, arriving, data);
    }
  }

  /**
   Over every link that relays, the file arrives byte for byte exactly if no message is mistaken for a short one,
   and then in the least possible number of messages. A transfer with a mistaken message may still report success.
  */
  method Transfer(sender: Sender, receiver: Receiver, link: seq<seq<byte>> -> seq<seq<byte>>,
                  medium: seq<seq<byte>> -> seq<byte>) returns (messages: nat)
    requires sender.Valid() && sender.state == 3 && sender.position == 0
    requires receiver.State() == Idle && receiver.target == sender.dstHandle
    requires Relays(link) && Hears(medium)
    modifies sender, receiver
    ensures sender.state == 6 || sender.state == 8
    ensures 0 < messages <= Messages(|sender.source|)
      && receiver.State() == Received(link, sender.dstHandle, sender.source, messages)
    ensures sender.state == 6 ==> messages == Messages(|sender.source|)
    ensures receiver.file == sender.source <==> AllTrusted(link, sender.dstHandle, sender.source, Messages(|sender.source|))
    ensures receiver.file == sender.source ==> sender.state == 6
  {
    hide Relays, Hears, Trusted, AsSent, Message, Joined, Fits, Legible, Part, NextData, Messages, SentIn, TakeAll,
      Answers, Acknowledges;
    ghost var file, handle := sender.source, sender.dstHandle;
    messages := 0;
    NothingSent(|file|);
    while sender.state == 3
      invariant sender.Valid() && sender.state in {3, 6, 8}
      invariant receiver.State() == Received(link, handle, file, messages)
      invariant sender.position == SentIn(|file|, messages) && messages <= Messages(|file|)
      invariant sender.state == 3 ==> messages < Messages(|file|)
      invariant sender.state == 6 ==> 0 < messages == Messages(|file|)
      invariant sender.state == 8 ==> 0 < messages && !AllTrusted(link, handle, file, messages)
      decreases Messages(|file|) - messages
    {
      NextPart(file, messages);
      NextMessage(link, medium, handle, receiver.others, file, messages);
      var chunks, msgSize := sender.SendMessage();
      var replies := receiver.ReceiveMessage(link(chunks));
      sender.AwaitAck(medium(replies));
      messages := messages + 1;
    }
    CompleteExactly(link, handle, file, messages);
  }

  /** Between two bricks with nothing but the buffers in between, exactly the files with a last message of 249 bytes
      fail. */
  method TransferAsSent(sender: Sender, receiver: Receiver, medium: seq<seq<byte>> -> seq<byte>)
    requires sender.Valid() && sender.state == 3 && sender.position == 0
    requires receiver.State() == Idle && receiver.target == sender.dstHandle && Hears(medium)
    modifies sender, receiver
    ensures receiver.file == sender.source <==> |sender.source| % MAX_DATA != 249
  {
    var link: seq<seq<byte>> -> seq<seq<byte>> := chunks => chunks;
    PassingOnRelays(link);
    var messages := Transfer(sender, receiver, link, medium);
    ArrivesExactly(link, sender.dstHandle, sender.source);
    CompleteExactly(link, sender.dstHandle, sender.source, messages);
    CompleteExactly(link, sender.dstHandle, sender.source, Messages(|sender.source|));
  }
}
