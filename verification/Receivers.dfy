/** The receiving brick: the extended write, and what becomes of a message whose first chunk is taken for all of it. */
module Receivers {
  import opened Words

  const SYSTEM_CMD: byte := 0x01
  const REPLY_CMD: byte := 0x02
  const NO_REPLY_BIT: byte := 0x80
  const WRITE: byte := 0x83
  const SUCCESS: byte := 0
  const SIZE_OF_BTBUF := 128
  const MAX_DATA := 59995

  // ---- messages and chunks ----

  function Joined(chunks: seq<seq<byte>>): seq<byte> {
    if chunks == [] then [] else chunks[0] + Joined(chunks[1..])
  }

  function Message(handle: byte, data: seq<byte>): seq<byte> {
    Command(SYSTEM_CMD, handle, data)
  }

  /** A write command; the top bit of its first byte says that no reply is wanted. */
  function Command(first: byte, handle: byte, data: seq<byte>): seq<byte> {
    [first, WRITE, handle] + data
  }

  /** What the receiver answers to n bytes of data. */
  function Reply(handle: byte, n: nat): seq<byte> {
    [REPLY_CMD, WRITE, SUCCESS, handle, n % 0x100, n / 0x100 % 0x100]
  }

  /** A reply of six bytes: its kind, the command, success, the handle, and the number of bytes modulo 2 to the 16, low
      byte first. */
  lemma ReplySays(handle: byte, n: nat)
    ensures var r := Reply(handle, n);
      |r| == 6 && r[..4] == [0x02, 0x83, 0x00, handle] && (r[4] as int) + 0x100 * (r[5] as int) == n % 0x1_0000
  {
  }

  predicate Fits(chunks: seq<seq<byte>>) {
    forall k :: 0 <= k < |chunks| ==> 0 < |chunks[k]| <= SIZE_OF_BTBUF
  }

  /** The link delivers the message in order, in chunks that fit the buffer; the first one holds the header. */
  ghost predicate Delivers(chunks: seq<seq<byte>>, message: seq<byte>) {
    chunks != [] && Joined(chunks) == message && |chunks[0]| >= 3 && Fits(chunks)
  }

  /** The first chunk is not taken for a whole message: its length differs from that of the rest. */
  predicate GoodStart(chunks: seq<seq<byte>>, message: seq<byte>) {
    chunks != [] ==> |chunks[0]| != |message| - |chunks[0]|
  }

  /** What starts like a system command has the three bytes of a header. */
  predicate Readable(chunk: seq<byte>) {
    |chunk| >= 3 || (chunk != [] && chunk[0] % NO_REPLY_BIT != SYSTEM_CMD)
  }

  lemma Split(chunks: seq<seq<byte>>)
    requires chunks != []
    ensures Joined(chunks) == chunks[0] + Joined(chunks[1..])
    ensures |Joined(chunks)| == |chunks[0]| + |Joined(chunks[1..])|
    ensures Fits(chunks) ==> Fits(chunks[1..])
  {
  }

  /** What is left to deliver ends with the last chunk, and not before. */
  lemma RestIsLater(chunks: seq<seq<byte>>)
    requires Fits(chunks)
    ensures |Joined(chunks)| == 0 <==> chunks == []
  {
    if chunks != [] {
      Split(chunks);
    }
  }

  // ---- one chunk ----

  /** ExtMode, the byte count in the reply buffer, and what the loader has written so far to the file open for
      writing. */
  datatype Intake = Intake(extMode: bool, handle: byte, quiet: bool, count: word, file: seq<byte>)

  /** A chunk that outside the extended mode is a write command */
  predicate IsWrite(chunk: seq<byte>) {
    |chunk| >= 3 && chunk[0] % NO_REPLY_BIT == SYSTEM_CMD && chunk[1] == WRITE
  }

  /** A write command with toCome bytes of its message still to come begins an extended write, unless it is as long
      as those. */
  predicate Extends(chunk: seq<byte>, toCome: nat) {
    IsWrite(chunk) && |chunk| != toCome && toCome != 0
  }

  /** The intake after a chunk; target is the handle of the file. Commands other than write leave it alone. */
  function Take(r: Intake, target: byte, chunk: seq<byte>, toCome: nat): Intake {
    if r.extMode then
      r.(extMode := toCome != 0, count := ToWord(r.count + |chunk|), file := r.file + if r.handle == target then chunk else [])
    else if !IsWrite(chunk) then r
    else
      var file := r.file + if chunk[2] == target then chunk[3..] else [];
      if Extends(chunk, toCome) then Intake(true, chunk[2], chunk[0] >= NO_REPLY_BIT, ToWord(|chunk| - 3), file)
      else r.(count := ToWord(|chunk| - 3), file := file)
  }

  /** The answer to a chunk, empty if there is none; others is what the interpreter answers to commands other than
      write. */
  function Answer(r: Intake, others: seq<byte> -> seq<byte>, chunk: seq<byte>, toCome: nat): seq<byte> {
    if r.extMode then (if toCome == 0 && !r.quiet then Reply(r.handle, ToWord(r.count + |chunk|)) else [])
    else if !IsWrite(chunk) then others(chunk)
    else if Extends(chunk, toCome) || chunk[0] >= NO_REPLY_BIT then []
    else Reply(chunk[2], ToWord(|chunk| - 3))
  }

  // ---- one message ----

  function TakeAll(r: Intake, target: byte, chunks: seq<seq<byte>>): Intake
    decreases |chunks|
  {
    if chunks == [] then r
    else TakeAll(Take(r, target, chunks[0], |Joined(chunks[1..])|), target, chunks[1..])
  }

  /** The answers to the chunks of a message, one by one */
  function Answers(r: Intake, target: byte, others: seq<byte> -> seq<byte>, chunks: seq<seq<byte>>): (a: seq<seq<byte>>)
    ensures |a| == |chunks|
    decreases |chunks|
  {
    if chunks == [] then []
    else
      var toCome := |Joined(chunks[1..])|;
      [Answer(r, others, chunks[0], toCome)] + Answers(Take(r, target, chunks[0], toCome), target, others, chunks[1..])
  }

  /** Chunks that are read as commands are readable. */
  ghost predicate Legible(r: Intake, target: byte, chunks: seq<seq<byte>>)
    decreases |chunks|
  {
    chunks == [] || ((r.extMode || Readable(chunks[0]))
      && Legible(Take(r, target, chunks[0], |Joined(chunks[1..])|), target, chunks[1..]))
  }

  /** Nothing is answered before the last chunk. */
  ghost predicate AnsweredAtEnd(answers: seq<seq<byte>>, reply: seq<byte>) {
    answers != [] && answers[|answers| - 1] == reply && forall k :: 0 <= k < |answers| - 1 ==> answers[k] == []
  }

  lemma {:induction false} ExtendedIsLegible(r: Intake, target: byte, chunks: seq<seq<byte>>)
    requires r.extMode && Fits(chunks)
    ensures Legible(r, target, chunks)
    decreases |chunks|
  {
    if chunks != [] {
      Split(chunks);
      RestIsLater(chunks[1..]);
      if chunks[1..] != [] {
        ExtendedIsLegible(Take(r, target, chunks[0], |Joined(chunks[1..])|), target, chunks[1..]);
      }
    }
  }

  lemma {:induction false} ReadableIsLegible(r: Intake, target: byte, chunks: seq<seq<byte>>)
    requires forall k :: 0 <= k < |chunks| ==> Readable(chunks[k])
    ensures Legible(r, target, chunks)
    decreases |chunks|
  {
    if chunks != [] {
      ReadableIsLegible(Take(r, target, chunks[0], |Joined(chunks[1..])|), target, chunks[1..]);
    }
  }

  /** In the extended mode every chunk goes to the file, and the last one ends the mode with the one reply. */
  lemma {:induction false} ExtendedWrite(r: Intake, target: byte, others: seq<byte> -> seq<byte>,
                                         chunks: seq<seq<byte>>)
    requires r.extMode && chunks != [] && Fits(chunks)
    ensures var s := TakeAll(r, target, chunks);
      !s.extMode && s.file == r.file + if r.handle == target then Joined(chunks) else []
    ensures AnsweredAtEnd(Answers(r, target, others, chunks),
      if r.quiet then [] else Reply(r.handle, ToWord(r.count + |Joined(chunks)|)))
    decreases |chunks|
  {
    hide Reply, ToWord;
    var s := Take(r, target, chunks[0], |Joined(chunks[1..])|);
    Split(chunks);
    RestIsLater(chunks[1..]);
    if chunks[1..] == [] {
      assert Joined(chunks) == chunks[0];
    } else {
      ExtendedWrite(s, target, others, chunks[1..]);
      ToWordSum(r.count + |chunks[0]|, |Joined(chunks[1..])|);
      var rest := Answers(s, target, others, chunks[1..]);
      assert Answers(r, target, others, chunks) == [[]] + rest;
    }
  }

  /** Chunks that are not expected are read as commands. Those that happen to be writes lengthen the file, by at
      least a header less than they hold. */
  lemma {:induction false} StrayChunks(r: Intake, target: byte, chunks: seq<seq<byte>>)
    requires !r.extMode && Fits(chunks)
    ensures var s := TakeAll(r, target, chunks);
      !s.extMode && r.file <= s.file && |s.file| <= |r.file| + if |Joined(chunks)| < 3 then 0 else |Joined(chunks)| - 3
    decreases |chunks|
  {
    if chunks != [] {
      var toCome := |Joined(chunks[1..])|;
      var s := Take(r, target, chunks[0], toCome);
      Split(chunks);
      if s.extMode {
        RestIsLater(chunks[1..]);
        ExtendedWrite(s, target, _ => [], chunks[1..]);
      } else {
        StrayChunks(s, target, chunks[1..]);
      }
    }
  }

  lemma FirstChunk(chunks: seq<seq<byte>>, first: byte, handle: byte, data: seq<byte>)
    requires Delivers(chunks, Command(first, handle, data))
    ensures |chunks[0]| >= 3 && chunks[0][0] == first && chunks[0][1] == WRITE && chunks[0][2] == handle
    ensures |Joined(chunks)| == 3 + |data| == |chunks[0]| + |Joined(chunks[1..])| && |chunks[0]| - 3 <= |data|
    ensures chunks[0][3..] == data[..|chunks[0]| - 3] && Joined(chunks[1..]) == data[|chunks[0]| - 3..]
    ensures |Joined(chunks[1..])| == 0 <==> |chunks| == 1
    ensures Fits(chunks[1..])
  {
    var message := Command(first, handle, data);
    Split(chunks);
    RestIsLater(chunks[1..]);
    var c := chunks[0];
    assert c == message[..|c|] && Joined(chunks[1..]) == message[|c|..];
    assert c[0] == message[0] && c[1] == message[1] && c[2] == message[2];
    assert forall k :: 0 <= k < |c| - 3 ==> c[3..][k] == message[k + 3] && message[k + 3] == data[k];
  }

  /** The first chunk of a write with a good start is all of it or begins an extended write. */
  lemma GoodFirstChunk(r: Intake, first: byte, handle: byte, target: byte, others: seq<byte> -> seq<byte>,
                       chunks: seq<seq<byte>>, data: seq<byte>)
    requires !r.extMode && |data| <= MAX_DATA && first % 0x80 == SYSTEM_CMD
    requires Delivers(chunks, Command(first, handle, data)) && GoodStart(chunks, Command(first, handle, data))
    ensures var n, toCome := |chunks[0]| - 3, |Joined(chunks[1..])|; var s := Take(r, target, chunks[0], toCome);
      && 0 <= n <= |data| && s.file == r.file + (if handle == target then data[..n] else []) && s.count == n
      && (if |chunks| == 1 then
            n == |data| && !s.extMode
            && Answer(r, others, chunks[0], toCome) == if first >= 0x80 then [] else Reply(handle, |data|)
          else
            s.extMode && s.handle == handle && (s.quiet <==> first >= 0x80)
            && Answer(r, others, chunks[0], toCome) == [])
  {
    hide Joined, Reply, ToWord;
    FirstChunk(chunks, first, handle, data);
    ToWordOfWord(|chunks[0]| - 3);
  }

  /** A write with a good start arrives: the file grows by its data if it is the one open under that handle, and the only
      reply, to the last chunk, says by how much; or there is none if none is wanted. */
  lemma GoodCommand(r: Intake, first: byte, handle: byte, target: byte, others: seq<byte> -> seq<byte>,
                    chunks: seq<seq<byte>>, data: seq<byte>)
    requires !r.extMode && |data| <= MAX_DATA && first % 0x80 == SYSTEM_CMD
    requires Delivers(chunks, Command(first, handle, data)) && GoodStart(chunks, Command(first, handle, data))
    ensures var s := TakeAll(r, target, chunks); !s.extMode && s.file == r.file + if handle == target then data else []
    ensures AnsweredAtEnd(Answers(r, target, others, chunks), if first >= 0x80 then [] else Reply(handle, |data|))
  {
    hide Joined, Reply, ToWord, Take, Answer, GoodStart;
    FirstChunk(chunks, first, handle, data);
    GoodFirstChunk(r, first, handle, target, others, chunks, data);
    var s, n := Take(r, target, chunks[0], |Joined(chunks[1..])|), |chunks[0]| - 3;
    if |chunks| == 1 {
      assert chunks[1..] == [];
      assert data[..|data|] == data;
    } else {
      assert chunks[1..] != [];
      ExtendedWrite(s, target, others, chunks[1..]);
      ToWordOfWord(|data|);
      assert data == data[..n] + data[n..];
      assert Answers(r, target, others, chunks) == [[]] + Answers(s, target, others, chunks[1..]);
    }
  }

  /** A message with a good start arrives: the file grows by its data, and the only reply, to the last chunk, says
      by how much. */
  lemma GoodMessage(r: Intake, target: byte, others: seq<byte> -> seq<byte>, chunks: seq<seq<byte>>, data: seq<byte>)
    requires !r.extMode && |data| <= MAX_DATA
    requires Delivers(chunks, Message(target, data)) && GoodStart(chunks, Message(target, data))
    ensures var s := TakeAll(r, target, chunks); !s.extMode && s.file == r.file + data
    ensures AnsweredAtEnd(Answers(r, target, others, chunks), Reply(target, |data|))
  {
    hide Joined, Reply, Command, TakeAll, Answers, AnsweredAtEnd, Delivers, GoodStart;
    GoodCommand(r, SYSTEM_CMD, target, target, others, chunks, data);
  }

  /** A message whose first chunk is as long as the rest is answered at once, for the first chunk only, and at least
      three bytes of it are lost. */
  lemma MistakenMessage(r: Intake, target: byte, others: seq<byte> -> seq<byte>, chunks: seq<seq<byte>>,
                        data: seq<byte>)
    requires !r.extMode && Delivers(chunks, Message(target, data)) && !GoodStart(chunks, Message(target, data))
    ensures var s := TakeAll(r, target, chunks); var n := |chunks[0]| - 3;
      !s.extMode && n <= |data| && r.file + data[..n] <= s.file && |s.file| <= |r.file| + |data| - 3
    ensures Answers(r, target, others, chunks)[0] == Reply(target, ToWord(|chunks[0]| - 3))
  {
    hide Joined, Reply;
    FirstChunk(chunks, SYSTEM_CMD, target, data);
    var s := Take(r, target, chunks[0], |Joined(chunks[1..])|);
    StrayChunks(s, target, chunks[1..]);
  }

  lemma MessageIsLegible(r: Intake, target: byte, chunks: seq<seq<byte>>, data: seq<byte>)
    requires !r.extMode && Delivers(chunks, Message(target, data))
    requires GoodStart(chunks, Message(target, data)) || forall k :: 0 <= k < |chunks| ==> Readable(chunks[k])
    ensures Legible(r, target, chunks) && |Joined(chunks)| == |data| + 3
  {
    hide Joined;
    FirstChunk(chunks, SYSTEM_CMD, target, data);
    if !GoodStart(chunks, Message(target, data)) {
      ReadableIsLegible(r, target, chunks);
    } else if chunks[1..] != [] {
      ExtendedIsLegible(Take(r, target, chunks[0], |Joined(chunks[1..])|), target, chunks[1..]);
    }
  }

  // ---- the brick ----

  const Idle: Intake := Intake(false, 0, false, 0, [])

  class Receiver {
    /** The handle of the file open for writing */
    const target: byte
    /** Answers to commands other than write */
    const others: seq<byte> -> seq<byte>
    var extMode: bool
    var handle: byte
    var quiet: bool
    var count: word
    var file: seq<byte>

    constructor (target: byte, others: seq<byte> -> seq<byte>)
      ensures State() == Idle && this.target == target && this.others == others
    {
      this.target, this.others := target, others;
      extMode, handle, quiet, count, file := false, 0, false, 0, [];
    }

    function State(): Intake
      reads this
    {
      Intake(extMode, handle, quiet, count, file)
    }

    /** cCommInterprete and the WRITE branch of cCommInterpreteCmd, for a chunk with toCome bytes of its message
        still to come. */
    method Receive(chunk: seq<byte>, toCome: word) returns (reply: seq<byte>)
      requires 0 < |chunk| <= SIZE_OF_BTBUF && (!extMode ==> Readable(chunk))
      modifies `extMode, `handle, `quiet, `count, `file
      ensures State() == Take(old(State()), target, chunk, toCome)
      ensures reply == Answer(old(State()), others, chunk, toCome)
    {
      reply := [];
      if !extMode {
        if chunk[0] % NO_REPLY_BIT == SYSTEM_CMD && chunk[1] == WRITE {
          var data := chunk[3..];
          if chunk[2] == target {
            file := file + data;
          }
          count := |data|;
          var noReply := chunk[0] >= NO_REPLY_BIT;
          if |chunk| != toCome && toCome != 0 {
            extMode, handle, quiet := true, chunk[2], noReply;
          } else if !noReply {
            reply := Reply(chunk[2], count);
          }
        } else {
          reply := others(chunk);
        }
      } else {
        if handle == target {
          file := file + chunk;
        }
        count := ToWord(count + |chunk|);
        if toCome == 0 {
          extMode := false;
          if !quiet {
            reply := Reply(handle, count);
          }
        }
      }
    }

    /** A message chunk by chunk */
    method ReceiveMessage(chunks: seq<seq<byte>>) returns (replies: seq<seq<byte>>)
      requires Fits(chunks) && |Joined(chunks)| < 0x1_0000 && Legible(State(), target, chunks)
      modifies `extMode, `handle, `quiet, `count, `file
      ensures State() == TakeAll(old(State()), target, chunks)
      ensures replies == Answers(old(State()), target, others, chunks)
    {
      hide Joined, Take, Answer;
      replies := [];
      var k := 0;
      assert chunks[0..] == chunks;
      while k < |chunks|
        invariant k <= |chunks| && |Joined(chunks[k..])| < 0x1_0000 && Legible(State(), target, chunks[k..])
        invariant TakeAll(State(), target, chunks[k..]) == TakeAll(old(State()), target, chunks)
        invariant replies + Answers(State(), target, others, chunks[k..]) == Answers(old(State()), target, others, chunks)
      {
        assert chunks[k..][1..] == chunks[k + 1..] && chunks[k..][0] == chunks[k];
        Split(chunks[k..]);
        var reply := Receive(chunks[k], |Joined(chunks[k + 1..])|);
        replies := replies + [reply];
        k := k + 1;
      }
    }
  }
}
