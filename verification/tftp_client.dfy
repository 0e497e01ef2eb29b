/** The TFTP download client of udp/tftpp.c: the request it builds and its receive loop. */
module TftpClient {
  import opened Bytes

  const DECLARED := 512 // what `memset` clears
  const RECEIVED := 600 // what `recvfrom` may write
  const FULL := 516     // a DATA datagram that carries a whole block

  const OCTET: seq<byte> := [111, 99, 116, 101, 116]

  datatype Status = Receiving | Saved | Removed

  /** What one turn of the loop finds: `poll` reports a datagram, reports something other
      than POLLIN, or times out. */
  datatype Input = Arrive(datagram: seq<byte>) | OtherEvent | Timeout

  /** The values of the client's variables and of the file it writes. */
  datatype Client = Client(buff: seq<byte>, expected: int, actual: int, dLength: int,
                           file: seq<byte>, status: Status)
  {
    predicate WellFormed() { |buff| == RECEIVED }
  }

  // ---- The client as a function of what it receives ----

  function Rrq(name: seq<byte>): (r: seq<byte>)
    ensures |r| == |name| + 9
  {
    [0, 1] + name + [0] + OCTET + [0]
  }

  /** The client once the request has been sent and the file opened. */
  function Started(name: seq<byte>): (c: Client)
    requires |name| + 9 <= DECLARED
    ensures c.WellFormed()
  {
    Client(Overlay(Rrq(name), Zeros(RECEIVED)), 1, 0, |name| + 9, [], Receiving)
  }

  /** recvfrom keeps at most 600 bytes of a datagram. */
  function Kept(d: seq<byte>): (k: seq<byte>)
    ensures |k| <= RECEIVED
  {
    if |d| <= RECEIVED then d else d[..RECEIVED]
  }

  function OnDatagram(c: Client, d: seq<byte>): (c': Client)
    requires c.WellFormed()
    ensures c'.WellFormed()
  {
    var buff := Overlay(Kept(d), c.buff);
    var actual := SignedChar(buff[3]);
    var c1 := c.(buff := buff, actual := actual, dLength := |Kept(d)|);
    if SignedChar(buff[1]) == 5 then
      c1.(file := [], status := Removed)
    else
      var accepted := actual == c.expected;
      c1.(expected := if accepted then actual + 1 else c.expected,
          file := if accepted then c.file + CText(buff[4..4 + 512]) else c.file,
          buff := Overlay(Zeros(DECLARED), buff),
          status := if |Kept(d)| == FULL then Receiving else Saved)
  }

  /** The acknowledgements sent for one datagram: one, unless it was an ERROR. */
  function AcksFor(c: Client, d: seq<byte>): (acks: seq<seq<byte>>)
    requires c.WellFormed()
    ensures |acks| <= 1
  {
    var buff := Overlay(Kept(d), c.buff);
    if SignedChar(buff[1]) == 5 then [] else [[0, 4, buff[2], buff[3]]]
  }

  function OnInput(c: Client, input: Input): (c': Client)
    requires c.WellFormed()
    ensures c'.WellFormed()
  {
    match input
    case Arrive(d) => OnDatagram(c, d)
    case OtherEvent => c.(status := if c.dLength == FULL then Receiving else Saved)
    case Timeout => c.(file := [], status := Removed)
  }

  function AcksOn(c: Client, input: Input): (acks: seq<seq<byte>>)
    requires c.WellFormed()
  {
    if input.Arrive? then AcksFor(c, input.datagram) else []
  }

  /** The client after the inputs it reads before its loop exits. */
  function Feed(c: Client, inputs: seq<Input>): (c': Client)
    requires c.WellFormed()
    ensures c'.WellFormed()
  {
    FeedFrom(c, inputs, 0)
  }

  function FeedFrom(c: Client, inputs: seq<Input>, k: nat): (c': Client)
    requires c.WellFormed() && k <= |inputs|
    ensures c'.WellFormed()
    decreases |inputs| - k
  {
    if k == |inputs| || !c.status.Receiving? then c
    else FeedFrom(OnInput(c, inputs[k]), inputs, k + 1)
  }

  function AllAcks(c: Client, inputs: seq<Input>): (acks: seq<seq<byte>>)
    requires c.WellFormed()
  {
    AcksFrom(c, inputs, 0)
  }

  function AcksFrom(c: Client, inputs: seq<Input>, k: nat): (acks: seq<seq<byte>>)
    requires c.WellFormed() && k <= |inputs|
    decreases |inputs| - k
  {
    if k == |inputs| || !c.status.Receiving? then []
    else AcksOn(c, inputs[k]) + AcksFrom(OnInput(c, inputs[k]), inputs, k + 1)
  }

  // ---- The client as it is written ----

  class Downloader {
    const buff: array<byte>
    var bLength: int
    var dLength: int
    var expectedBlock: int
    var actualBlock: int
    var file: seq<byte>
    var status: Status

    ghost predicate Valid()
      reads this, buff
    {
      buff.Length == RECEIVED
    }

    ghost function View(): (c: Client)
      reads this, buff
    {
      Client(buff[..], expectedBlock, actualBlock, dLength, file, status)
    }

    constructor ()
      ensures Valid() && fresh(buff) && buff[..] == Zeros(RECEIVED)
    {
      buff := new byte[RECEIVED](_ => 0);
      bLength, dLength, expectedBlock, actualBlock := 0, 0, 1, 0;
      file, status := [], Receiving;
    }

    /** Builds the read request in `buff`, which must be able to hold it. */
    method ConfigDGramToSend(name: seq<byte>)
      requires Valid() && |name| + 9 <= DECLARED
      modifies this`bLength, buff
      ensures bLength == |Rrq(name)|
      ensures buff[..] == Overlay(Rrq(name), old(buff[..]))
    {
      ghost var before := buff[..];
      buff[0], buff[1] := 0, 1;
      assert buff[..] == [0, 1] + before[2..];
      PrintText(buff, 2, name);
      assert buff[..] == [0, 1] + name + [0] + before[3 + |name|..];
      var modeOp := 2 + |name| + 1;
      PrintText(buff, modeOp, OCTET);
      assert buff[..] == [0, 1] + name + [0] + OCTET + [0] + before[modeOp + 6..];
      bLength := modeOp + |OCTET| + 1;
    }

    /** Everything `main` does before its loop, for a client just created. */
    method Start(name: seq<byte>)
      requires Valid() && |name| + 9 <= DECLARED && buff[..] == Zeros(RECEIVED)
      modifies this, buff
      ensures Valid() && View() == Started(name)
    {
      ConfigDGramToSend(name);
      dLength := bLength;
      expectedBlock, actualBlock := 1, 0;
      file, status := [], Receiving;
    }

    /** The body of the loop when a datagram can be read. */
    method HandleDatagram(d: seq<byte>) returns (acks: seq<seq<byte>>)
      requires Valid() && status == Receiving
      modifies this, buff
      ensures Valid() && View() == OnDatagram(old(View()), d)
      ensures acks == AcksFor(old(View()), d)
    {
      var kept := Kept(d);
      forall i | 0 <= i < |kept| {
        buff[i] := kept[i];
      }
      assert buff[..] == Overlay(kept, old(buff[..]));
      ghost var received := buff[..];
      dLength := |kept|;
      var rcvOpCode := SignedChar(buff[1]);
      actualBlock := SignedChar(buff[3]);
      if rcvOpCode == 5 {
        file, status := [], Removed;
        return [];
      }
      if actualBlock == expectedBlock {
        expectedBlock := actualBlock + 1;
        var data := buff[4..4 + 512];
        file := file + CText(data);
      }
      acks := [[0, 4, buff[2], buff[3]]];
      forall i | 0 <= i < DECLARED {
        buff[i] := 0;
      }
      assert buff[..] == Overlay(Zeros(DECLARED), received);
      if dLength != FULL {
        status := Saved;
      }
    }

    /** One turn of the loop. */
    method Turn(input: Input) returns (acks: seq<seq<byte>>)
      requires Valid() && status == Receiving
      modifies this, buff
      ensures Valid() && View() == OnInput(old(View()), input)
      ensures acks == AcksOn(old(View()), input)
    {
      acks := [];
      match input {
        case Arrive(d) =>
          acks := HandleDatagram(d);
        case OtherEvent =>
          if dLength != FULL {
            status := Saved;
          }
        case Timeout =>
          file, status := [], Removed;
      }
    }

    /** The receive loop, over the inputs it will meet. */
    method Download(inputs: seq<Input>) returns (acks: seq<seq<byte>>)
      requires Valid() && status == Receiving
      modifies this, buff
      ensures Valid() && View() == Feed(old(View()), inputs)
      ensures acks == AllAcks(old(View()), inputs)
    {
      acks := [];
      var k := 0;
      while k < |inputs| && status == Receiving
        invariant 0 <= k <= |inputs| && Valid()
        invariant FeedFrom(View(), inputs, k) == Feed(old(View()), inputs)
        invariant acks + AcksFrom(View(), inputs, k) == AllAcks(old(View()), inputs)
      {
        var sent := Turn(inputs[k]);
        Associative(acks, sent, AcksFrom(View(), inputs, k + 1));
        acks := acks + sent;
        k := k + 1;
      }
    }
  }

  // ---- What one input does, said of its bytes ----

  /** The request, field by field: section 5 of RFC 1350. */
  lemma RequestFields(name: seq<byte>)
    ensures Rrq(name)[0] == 0 && Rrq(name)[1] == 1
    ensures Rrq(name)[2..2 + |name|] == name && Rrq(name)[2 + |name|] == 0
    ensures forall i :: 0 <= i < 5 ==> Rrq(name)[3 + |name| + i] == "octet"[i] as int
    ensures Rrq(name)[8 + |name|] == 0 && |Rrq(name)| == 9 + |name|
  {
  }

  /** The client on entry to its loop. */
  lemma StartedFields(name: seq<byte>)
    requires |name| + 9 <= DECLARED
    ensures var c := Started(name);
            && c.expected == 1 && c.dLength == |name| + 9 && c.file == [] && c.status == Receiving
            && c.buff[..|name| + 9] == Rrq(name)
            && forall i :: |name| + 9 <= i < RECEIVED ==> c.buff[i] == 0
  {
  }

  /** Byte i of `buff` once `d` has been received: a stale one behind the end of `d`. */
  function Seen(c: Client, d: seq<byte>, i: nat): (b: byte)
    requires c.WellFormed() && i < RECEIVED
  {
    if i < |d| then d[i] else c.buff[i]
  }

  /** `file` is the client's file and, behind it, the text that starts at byte 4: at most 512
      bytes, up to the first NUL. */
  ghost predicate WritesText(c: Client, d: seq<byte>, file: seq<byte>)
    requires c.WellFormed()
  {
    var n := |file| - |c.file|;
    && 0 <= n <= 512 && file[..|c.file|] == c.file
    && (forall j :: |c.file| <= j < |file| ==> file[j] == Seen(c, d, 4 + j - |c.file|) != 0)
    && (n < 512 ==> Seen(c, d, 4 + n) == 0)
  }

  /** Whatever datagram arrives, of any kind and length: the second byte alone tells an ERROR;
      every other datagram is answered with its third and fourth byte, ends the loop unless it
      has 516 bytes, and is written if its fourth byte, read as signed, is the expected one. */
  lemma AnyDatagram(c: Client, d: seq<byte>)
    requires c.WellFormed()
    ensures var c' := OnDatagram(c, d);
            if Seen(c, d, 1) == 5 then c'.status == Removed && c'.file == [] && AcksFor(c, d) == []
            else
              && AcksFor(c, d) == [[0, 4, Seen(c, d, 2), Seen(c, d, 3)]]
              && c'.status == (if |d| == 516 then Receiving else Saved)
              && c'.dLength == (if |d| <= 600 then |d| else 600)
              && (forall i :: 0 <= i < 600 ==> c'.buff[i] == if i < 512 then 0 else Seen(c, d, i))
              && if SignedChar(Seen(c, d, 3)) == c.expected
                 then c'.expected == c.expected + 1 && WritesText(c, d, c'.file)
                 else c'.expected == c.expected && c'.file == c.file
  {
    BytesReceived(c, d);
    if Seen(c, d, 1) != 5 && SignedChar(Seen(c, d, 3)) == c.expected {
      TextReceived(c, d);
    }
  }

  lemma BytesReceived(c: Client, d: seq<byte>)
    requires c.WellFormed()
    ensures forall i :: 0 <= i < RECEIVED ==> Overlay(Kept(d), c.buff)[i] == Seen(c, d, i)
  {
  }

  lemma TextReceived(c: Client, d: seq<byte>)
    requires c.WellFormed()
    ensures WritesText(c, d, c.file + CText(Overlay(Kept(d), c.buff)[4..4 + 512]))
  {
    BytesReceived(c, d);
    var data := Overlay(Kept(d), c.buff)[4..4 + 512];
    StrLenMeans(data);
    assert forall i :: 0 <= i < |data| ==> data[i] == Seen(c, d, 4 + i);
  }

  /** A timeout removes the file and ends the loop, at any time. */
  lemma TimeoutRemoves(c: Client)
    requires c.WellFormed()
    ensures OnInput(c, Timeout).status == Removed && OnInput(c, Timeout).file == [] && AcksOn(c, Timeout) == []
  {
  }

  /** An event without data only has the loop test `dLength` again. */
  lemma OtherEventTests(c: Client)
    requires c.WellFormed() && c.status.Receiving?
    ensures OnInput(c, OtherEvent) == (if c.dLength == 516 then c else c.(status := Saved))
    ensures AcksOn(c, OtherEvent) == []
  {
  }

  // ---- For any inputs at all ----

  lemma {:induction false} FeedFromOneMore(c: Client, inputs: seq<Input>, k: nat, input: Input)
    requires c.WellFormed() && k <= |inputs|
    ensures var end := FeedFrom(c, inputs, k);
            && FeedFrom(c, inputs + [input], k) == (if end.status.Receiving? then OnInput(end, input) else end)
            && AcksFrom(c, inputs + [input], k)
               == AcksFrom(c, inputs, k) + (if end.status.Receiving? then AcksOn(end, input) else [])
    decreases |inputs| - k
  {
    if k < |inputs| && c.status.Receiving? {
      assert (inputs + [input])[k] == inputs[k];
      FeedFromOneMore(OnInput(c, inputs[k]), inputs, k + 1, input);
      Associative(AcksOn(c, inputs[k]), AcksFrom(OnInput(c, inputs[k]), inputs, k + 1),
                  var end := FeedFrom(c, inputs, k); if end.status.Receiving? then AcksOn(end, input) else []);
    }
  }

  /** The loop seen from its end: it handles one input more if it has not exited yet. */
  lemma FeedOneMore(c: Client, inputs: seq<Input>, input: Input)
    requires c.WellFormed()
    ensures Feed(c, []) == c && AllAcks(c, []) == []
    ensures var end := Feed(c, inputs);
            && Feed(c, inputs + [input]) == (if end.status.Receiving? then OnInput(end, input) else end)
            && AllAcks(c, inputs + [input])
               == AllAcks(c, inputs) + (if end.status.Receiving? then AcksOn(end, input) else [])
  {
    FeedFromOneMore(c, inputs, 0, input);
  }

  /** Whatever arrives, the expected block never goes down, never passes 128, and once it
      is 128 nothing more is accepted. */
  lemma ExpectedBlockRange(c: Client, inputs: seq<Input>)
    requires c.WellFormed() && 1 <= c.expected <= 128
    ensures c.expected <= Feed(c, inputs).expected <= 128
    ensures Feed(c, inputs).expected - c.expected <= |inputs|
    ensures c.expected == 128 ==> Feed(c, inputs).file in {c.file, []}
  {
    ExpectedRangeFrom(c, inputs, 0);
  }

  lemma {:induction false} ExpectedRangeFrom(c: Client, inputs: seq<Input>, k: nat)
    requires c.WellFormed() && 1 <= c.expected <= 128 && k <= |inputs|
    ensures c.expected <= FeedFrom(c, inputs, k).expected <= 128
    ensures FeedFrom(c, inputs, k).expected - c.expected <= |inputs| - k
    ensures c.expected == 128 ==> FeedFrom(c, inputs, k).file in {c.file, []}
    decreases |inputs| - k
  {
    if k < |inputs| && c.status.Receiving? {
      OneInput(c, inputs[k]);
      ExpectedRangeFrom(OnInput(c, inputs[k]), inputs, k + 1);
    }
  }

  lemma OneInput(c: Client, input: Input)
    requires c.WellFormed() && 1 <= c.expected <= 128
    ensures c.expected <= OnInput(c, input).expected <= c.expected + 1 && OnInput(c, input).expected <= 128
    ensures c.expected == 128 ==> OnInput(c, input).file in {c.file, []}
  {
  }

  /** A file is only ever written with text: whatever arrives, no NUL reaches it. */
  lemma FileStaysNulFree(c: Client, inputs: seq<Input>)
    requires c.WellFormed() && NulFree(c.file)
    ensures NulFree(Feed(c, inputs).file)
  {
    NulFreeFrom(c, inputs, 0);
  }

  lemma {:induction false} NulFreeFrom(c: Client, inputs: seq<Input>, k: nat)
    requires c.WellFormed() && NulFree(c.file) && k <= |inputs|
    ensures NulFree(FeedFrom(c, inputs, k).file)
    decreases |inputs| - k
  {
    if k < |inputs| && c.status.Receiving? {
      InputKeepsText(c, inputs[k]);
      NulFreeFrom(OnInput(c, inputs[k]), inputs, k + 1);
    }
  }

  lemma InputKeepsText(c: Client, input: Input)
    requires c.WellFormed() && NulFree(c.file)
    ensures NulFree(OnInput(c, input).file)
  {
    if input.Arrive? {
      TextAppended(c.file, Overlay(Kept(input.datagram), c.buff)[4..4 + 512]);
    }
  }
}
