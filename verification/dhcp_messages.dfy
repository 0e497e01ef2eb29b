/** DHCP messages as RFC 2131 (section 3) and RFC 2132 (section 2) lay them out, and what the
    decoder of examen2/evaluate.c makes of them. */
module DhcpMessages {
  import opened Bytes
  import opened DhcpDecoder

  /** The pad and end options are single bytes; every other option has a length byte. */
  datatype Opt = Pad | End | Tlv(code: byte, value: seq<byte>)

  predicate Fits(o: Opt) {
    o.Tlv? ==> o.code != 0 && o.code != 255 && |o.value| < 256
  }

  function FirstByte(o: Opt): (b: byte) {
    if o.Tlv? then o.code else if o.End? then 255 else 0
  }

  /** How many bytes an option takes. */
  function Size(o: Opt): (n: nat)
    ensures n >= 1
  {
    if o.Tlv? then 2 + |o.value| else 1
  }

  /** The code, the length and the value, or a single byte. */
  function Encoded(o: Opt): (s: seq<byte>)
    requires Fits(o)
    ensures |s| == Size(o)
  {
    seq(Size(o), i requires 0 <= i < Size(o) =>
      if i == 0 then FirstByte(o) else if i == 1 then |o.value| else o.value[i - 2])
  }

  /** An option on the wire: section 2 of RFC 2132. */
  lemma EncodedFields(o: Opt)
    requires Fits(o)
    ensures o.Pad? ==> Encoded(o) == [0]
    ensures o.End? ==> Encoded(o) == [255]
    ensures o.Tlv? ==> Encoded(o) == [o.code, |o.value|] + o.value
  {
    assert Encoded(o)[0] == FirstByte(o);
    if o.Tlv? {
      assert Encoded(o)[1] == |o.value|;
      assert forall i :: 0 <= i < |o.value| ==> Encoded(o)[2 + i] == o.value[i];
    }
  }

  predicate Padding(opts: seq<Opt>) {
    opts == [] || (opts[0].Pad? && Padding(opts[1..]))
  }

  /** A list that can be sent: behind the end option there is only padding. */
  predicate Encodable(opts: seq<Opt>) {
    opts == [] || (Fits(opts[0]) && (opts[0].End? ==> Padding(opts[1..])) && Encodable(opts[1..]))
  }

  function Serialize(opts: seq<Opt>): (s: seq<byte>)
    requires Encodable(opts)
  {
    if opts == [] then [] else Encoded(opts[0]) + Serialize(opts[1..])
  }

  predicate HasCode(o: Opt, code: byte) {
    o.Tlv? && o.code == code
  }

  /** The index of the first option with this code, or the number of options. */
  function First(opts: seq<Opt>, code: byte): (j: nat)
    ensures j <= |opts|
  {
    if opts == [] || HasCode(opts[0], code) then 0 else 1 + First(opts[1..], code)
  }

  /** An option of a length that is not negative when read as a signed char. */
  predicate Jumpable(o: Opt) {
    o.Tlv? && |o.value| < 128
  }

  /** There is an option with this code, and every one before the first is jumpable. */
  predicate Offers(opts: seq<Opt>, code: byte) {
    opts != [] && (HasCode(opts[0], code) || (Jumpable(opts[0]) && Offers(opts[1..], code)))
  }

  /** First and Offers, said of positions. */
  lemma {:induction false} OffersMeans(opts: seq<Opt>, code: byte)
    ensures First(opts, code) < |opts| ==> HasCode(opts[First(opts, code)], code)
    ensures forall i :: 0 <= i < First(opts, code) ==> !HasCode(opts[i], code)
    ensures Offers(opts, code) <==>
            First(opts, code) < |opts| && forall i :: 0 <= i < First(opts, code) ==> Jumpable(opts[i])
  {
    if opts != [] && !HasCode(opts[0], code) {
      OffersMeans(opts[1..], code);
      assert forall i :: 1 <= i < |opts| ==> opts[i] == opts[1..][i - 1];
      assert forall i :: 0 <= i < |opts| - 1 ==> opts[1..][i] == opts[i + 1];
    }
  }

  // ---- Where the walk goes wrong ----

  /** An option of 254 bytes stops the walk for ever, wherever the wanted one is. */
  lemma {:induction false} Length254NeverLands(msg: seq<byte>, i: nat, code: byte, k: nat)
    requires i + 1 < |msg| && msg[i] != code && msg[i + 1] == 254
    ensures !LandsIn(msg, i, code, k)
  {
    if k > 0 {
      Length254NeverLands(msg, i, code, k - 1);
    }
  }

  /** A pad makes the index jump by the code of the option behind it, out of any message
      with no more than that many bytes left, whatever option was wanted. */
  lemma PadRunsOff(head: seq<byte>, rest: seq<byte>, code: byte, k: nat)
    requires rest != [] && rest[0] < 128 && |rest| <= rest[0] + 1 && code != 0
    ensures !LandsIn(head + [0] + rest, |head|, code, k)
  {
  }

  // ---- The walk is a lookup ----

  /** How many bytes the first j options take. */
  function Offset(opts: seq<Opt>, j: nat): (n: nat)
    requires j <= |opts|
  {
    if j == 0 then 0 else Size(opts[0]) + Offset(opts[1..], j - 1)
  }

  /** The value of the first option with this code. */
  function Value(opts: seq<Opt>, code: byte): (v: seq<byte>)
    requires Offers(opts, code)
  {
    if HasCode(opts[0], code) then opts[0].value else Value(opts[1..], code)
  }

  /** The bytes of `s` are in the message from index `at`. */
  ghost predicate Reads(msg: seq<byte>, at: nat, s: seq<byte>) {
    at + |s| <= |msg| && ReadsFrom(msg, at, s, 0)
  }

  ghost predicate ReadsFrom(msg: seq<byte>, at: nat, s: seq<byte>, k: nat)
    requires k <= |s| && at + |s| <= |msg|
    decreases |s| - k
  {
    k == |s| || (msg[at + k] == s[k] && ReadsFrom(msg, at, s, k + 1))
  }

  lemma {:induction false} ReadsFromMeans(msg: seq<byte>, at: nat, s: seq<byte>, k: nat)
    requires k <= |s| && at + |s| <= |msg|
    ensures ReadsFrom(msg, at, s, k) <==> forall j :: k <= j < |s| ==> msg[at + j] == s[j]
    decreases |s| - k
  {
    if k < |s| {
      ReadsFromMeans(msg, at, s, k + 1);
    }
  }

  lemma ReadsMeans(msg: seq<byte>, at: nat, s: seq<byte>)
    ensures Reads(msg, at, s) <==> at + |s| <= |msg| && forall k :: 0 <= k < |s| ==> msg[at + k] == s[k]
  {
    if at + |s| <= |msg| {
      ReadsFromMeans(msg, at, s, 0);
    }
  }

  lemma ReadsParts(msg: seq<byte>, at: nat, a: seq<byte>, b: seq<byte>)
    requires Reads(msg, at, a + b)
    ensures Reads(msg, at, a) && Reads(msg, at + |a|, b)
  {
    var s := a + b;
    ReadsMeans(msg, at, s);
    assert forall k :: 0 <= k < |a| ==> s[k] == a[k];
    ReadsMeans(msg, at, a);
    assert forall k :: 0 <= k < |b| ==> s[|a| + k] == b[k];
    ReadsMeans(msg, at + |a|, b);
  }

  /** An option of this value at index i: its length byte and its bytes. */
  ghost predicate HoldsAt(msg: seq<byte>, i: nat, value: seq<byte>) {
    i + 1 < |msg| && msg[i + 1] == |value| && Reads(msg, i + 2, value)
  }

  /** The option starts at index `at`. */
  ghost predicate OptionAt(msg: seq<byte>, at: nat, o: Opt) {
    at + Size(o) <= |msg| && msg[at] == FirstByte(o) && (o.Tlv? ==> HoldsAt(msg, at, o.value))
  }

  /** The options lie in the message one behind the other, from index `at`. */
  ghost predicate Laid(msg: seq<byte>, at: nat, opts: seq<Opt>)
    decreases |opts|
  {
    opts == [] || (OptionAt(msg, at, opts[0]) && Laid(msg, at + Size(opts[0]), opts[1..]))
  }

  lemma FrontReads(msg: seq<byte>, at: nat, o: Opt, s: seq<byte>)
    requires Fits(o) && Reads(msg, at, Encoded(o) + s)
    ensures OptionAt(msg, at, o) && Reads(msg, at + Size(o), s)
  {
    var e := Encoded(o);
    ReadsParts(msg, at, e, s);
    ReadsMeans(msg, at, e);
    assert msg[at + 0] == e[0];
    if o.Tlv? {
      assert msg[at + 1] == e[1];
      assert forall k :: 0 <= k < |o.value| ==> msg[at + (2 + k)] == e[2 + k] == o.value[k];
      ReadsMeans(msg, at + 2, o.value);
    }
  }

  lemma FrontIsThere(msg: seq<byte>, at: nat, opts: seq<Opt>)
    requires opts != [] && Encodable(opts) && Reads(msg, at, Serialize(opts))
    ensures OptionAt(msg, at, opts[0])
    ensures Reads(msg, at + Size(opts[0]), Serialize(opts[1..]))
  {
    SerializeFront(opts);
    FrontReads(msg, at, opts[0], Serialize(opts[1..]));
  }

  lemma SerializeFront(opts: seq<Opt>)
    requires opts != [] && Encodable(opts)
    ensures Serialize(opts) == Encoded(opts[0]) + Serialize(opts[1..])
  {
  }

  lemma {:induction false} SerializedIsLaid(msg: seq<byte>, at: nat, opts: seq<Opt>)
    requires Encodable(opts) && Reads(msg, at, Serialize(opts))
    ensures Laid(msg, at, opts)
    decreases |opts|
  {
    if opts != [] {
      FrontIsThere(msg, at, opts);
      SerializedIsLaid(msg, at + Size(opts[0]), opts[1..]);
    }
  }

  /** The walk from `at` makes k jumps and stops at index j. */
  ghost predicate WalksTo(msg: seq<byte>, at: nat, code: byte, k: nat, j: nat) {
    LandsIn(msg, at, code, k) && IndexAfter(msg, at, code, k) == j
  }

  lemma WalkStops(msg: seq<byte>, at: nat, code: byte)
    requires at < |msg| && msg[at] == code
    ensures WalksTo(msg, at, code, 0, at)
  {
  }

  lemma WalkSteps(msg: seq<byte>, at: nat, next: nat, code: byte, k: nat, j: nat)
    requires at + 1 < |msg| && msg[at] != code && Jump(msg, at) == next && WalksTo(msg, next, code, k, j)
    ensures WalksTo(msg, at, code, k + 1, j)
  {
  }

  /** One jump goes from an option to the next one exactly when the option is jumpable, or is
      a pad before the end option. */
  lemma JumpExact(msg: seq<byte>, at: nat, opts: seq<Opt>)
    requires |opts| > 1 && Encodable(opts) && Laid(msg, at, opts)
    ensures at + 1 < |msg|
    ensures Jump(msg, at) == at + Size(opts[0]) <==> Jumpable(opts[0]) || (opts[0].Pad? && opts[1].End?)
  {
    var next := at + Size(opts[0]);
    assert OptionAt(msg, at, opts[0]) && OptionAt(msg, next, opts[1]);
    assert opts[1..][0] == opts[1];
  }

  /** The walk goes from the start of each option to the start of the next, never into a
      value, up to the first one with the wanted code. */
  ghost predicate FollowsStarts(msg: seq<byte>, at: nat, opts: seq<Opt>, code: byte)
    decreases |opts|
  {
    opts != [] &&
    (|| HasCode(opts[0], code)
     || (&& at + 1 < |msg| && Jump(msg, at) == at + Size(opts[0])
         && FollowsStarts(msg, at + Size(opts[0]), opts[1..], code)))
  }

  lemma NothingBehindEnd(opts: seq<Opt>, code: byte)
    requires opts != [] && opts[0].End?
    ensures !Offers(opts, code)
  {
  }

  lemma {:induction false} FollowsLaid(msg: seq<byte>, at: nat, opts: seq<Opt>, code: byte)
    requires Encodable(opts) && Laid(msg, at, opts)
    ensures FollowsStarts(msg, at, opts, code) <==> Offers(opts, code)
    decreases |opts|
  {
    if |opts| > 1 {
      JumpExact(msg, at, opts);
      FollowsLaid(msg, at + Size(opts[0]), opts[1..], code);
      if opts[1].End? {
        NothingBehindEnd(opts[1..], code);
      }
    }
  }

  /** The walk follows a serialised list option by option exactly when the list offers the
      wanted one. */
  lemma FollowsStartsExact(msg: seq<byte>, at: nat, opts: seq<Opt>, code: byte)
    requires Encodable(opts) && Reads(msg, at, Serialize(opts))
    ensures FollowsStarts(msg, at, opts, code) <==> Offers(opts, code)
  {
    SerializedIsLaid(msg, at, opts);
    FollowsLaid(msg, at, opts, code);
  }

  lemma SkipOption(opts: seq<Opt>, code: byte)
    requires opts != [] && !HasCode(opts[0], code) && Offers(opts, code)
    ensures Jumpable(opts[0]) && |opts| > 1 && Offers(opts[1..], code)
    ensures Value(opts, code) == Value(opts[1..], code) && First(opts, code) == First(opts[1..], code) + 1
    ensures Offset(opts, First(opts, code)) == Size(opts[0]) + Offset(opts[1..], First(opts[1..], code))
  {
  }

  /** Over a list that offers the option the walk makes one jump for each option before the
      first one with the wanted code, and stops there. */
  lemma {:induction false} WalkVisitsOptions(msg: seq<byte>, at: nat, opts: seq<Opt>, code: byte)
    requires Encodable(opts) && Offers(opts, code) && Laid(msg, at, opts)
    ensures WalksTo(msg, at, code, First(opts, code), at + Offset(opts, First(opts, code)))
    decreases |opts|
  {
    if HasCode(opts[0], code) {
      WalkStops(msg, at, code);
    } else {
      var next, rest := at + Size(opts[0]), opts[1..];
      SkipOption(opts, code);
      JumpExact(msg, at, opts);
      WalkVisitsOptions(msg, next, rest, code);
      WalkSteps(msg, at, next, code, First(rest, code), next + Offset(rest, First(rest, code)));
    }
  }

  lemma {:induction false} ValueIsThere(msg: seq<byte>, at: nat, opts: seq<Opt>, code: byte)
    requires Offers(opts, code) && Laid(msg, at, opts)
    ensures HoldsAt(msg, at + Offset(opts, First(opts, code)), Value(opts, code))
    decreases |opts|
  {
    if !HasCode(opts[0], code) {
      var next, rest := at + Size(opts[0]), opts[1..];
      SkipOption(opts, code);
      ValueIsThere(msg, next, rest, code);
      assert at + Offset(opts, First(opts, code)) == next + Offset(rest, First(rest, code));
    }
  }

  /** Where the decoder finds an offered option of a serialised list, its length byte and value
      follow the index. */
  lemma LandsOnFirst(msg: seq<byte>, at: nat, opts: seq<Opt>, code: byte)
    requires Encodable(opts) && Offers(opts, code) && Reads(msg, at, Serialize(opts))
    ensures Lands(msg, at, code)
    ensures Landing(msg, at, code) == at + Offset(opts, First(opts, code))
    ensures HoldsAt(msg, Landing(msg, at, code), Value(opts, code))
  {
    SerializedIsLaid(msg, at, opts);
    WalkVisitsOptions(msg, at, opts, code);
    LandingIs(msg, at, code, First(opts, code));
    ValueIsThere(msg, at, opts, code);
  }

  // ---- Whole messages ----

  function Message(header: seq<byte>, opts: seq<Opt>, tail: seq<byte>): (msg: seq<byte>)
    requires Encodable(opts)
  {
    header + COOKIE + Serialize(opts) + tail
  }

  /** No four bytes from before the cookie look like it. */
  ghost predicate NoEarlierCookie(header: seq<byte>) {
    forall i: nat :: i < |header| ==> !CookieAt(header + COOKIE, i)
  }

  /** The scan finds the cookie that ends the header exactly when there is none before it. */
  lemma ScanFindsHeaderEnd(header: seq<byte>, opts: seq<Opt>, tail: seq<byte>)
    requires Encodable(opts)
    ensures CookieFrom(Message(header, opts, tail), 0) == |header| <==> NoEarlierCookie(header)
    ensures CookieFrom(Message(header, opts, tail), 0) <= |header|
  {
    var msg := Message(header, opts, tail);
    assert msg[|header|..|header| + 4] == COOKIE;
    assert CookieAt(msg, |header|);
    forall i: nat | i < |header|
      ensures CookieAt(msg, i) <==> CookieAt(header + COOKIE, i)
    {
      assert msg[i..i + 4] == (header + COOKIE)[i..i + 4];
    }
    if CookieFrom(msg, 0) < |header| {
      assert CookieAt(header + COOKIE, CookieFrom(msg, 0));
    }
  }

  /** A message of type `kind` that offers the option the decoder prints for it. */
  ghost predicate WellFormed(header: seq<byte>, opts: seq<Opt>, kind: byte) {
    && Encodable(opts) && NoEarlierCookie(header)
    && Offers(opts, MESSAGE_TYPE) && Value(opts, MESSAGE_TYPE) == [kind]
    && (KnownType(kind) ==>
          && Offers(opts, WantedOption(kind))
          && var v := Value(opts, WantedOption(kind));
             if kind == 1 then |v| >= 7 else if kind == 2 then |v| <= 8 else |v| >= 4)
  }

  lemma PartOfValue(msg: seq<byte>, i: nat, v: seq<byte>, from: nat, to: nat)
    requires HoldsAt(msg, i, v) && from <= to <= |v|
    ensures msg[i + 2 + from..i + 2 + to] == v[from..to]
  {
    ReadsMeans(msg, i + 2, v);
    forall k | 0 <= k < to - from
      ensures msg[i + 2 + from..i + 2 + to][k] == v[from..to][k]
    {
      assert msg[i + 2 + (from + k)] == v[from + k];
    }
  }

  /** An integer option is read as the big-endian number it holds, if its sign bit is clear. */
  lemma IntegerOption(msg: seq<byte>, i: nat, value: seq<byte>)
    requires HoldsAt(msg, i, value) && |value| <= 8
    ensures IntegerAt(msg, i) && Integer(msg, i) == LongLong(BigEndian(value))
  {
    PartOfValue(msg, i, value, 0, |value|);
    assert value[0..|value|] == value;
  }

  lemma OptionInMessage(header: seq<byte>, opts: seq<Opt>, tail: seq<byte>, code: byte)
    requires Encodable(opts) && Offers(opts, code)
    ensures var msg, start := Message(header, opts, tail), |header| + 4;
            Lands(msg, start, code) && HoldsAt(msg, Landing(msg, start, code), Value(opts, code))
  {
    var msg, s := Message(header, opts, tail), Serialize(opts);
    assert msg == header + COOKIE + (s + tail);
    assert forall k :: 0 <= k < |s| ==> msg[|header| + 4 + k] == s[k];
    ReadsMeans(msg, |header| + 4, s);
    LandsOnFirst(msg, |header| + 4, opts, code);
  }

  lemma TypeIsRead(header: seq<byte>, opts: seq<Opt>, tail: seq<byte>, kind: byte)
    requires WellFormed(header, opts, kind)
    ensures var msg, start := Message(header, opts, tail), |header| + 4;
            && CookieFrom(msg, 0) == |header| < |msg|
            && Lands(msg, start, MESSAGE_TYPE)
            && IntegerAt(msg, Landing(msg, start, MESSAGE_TYPE))
            && Integer(msg, Landing(msg, start, MESSAGE_TYPE)) == kind
  {
    var msg, start := Message(header, opts, tail), |header| + 4;
    ScanFindsHeaderEnd(header, opts, tail);
    OptionInMessage(header, opts, tail, MESSAGE_TYPE);
    IntegerOption(msg, Landing(msg, start, MESSAGE_TYPE), [kind]);
    assert BigEndian([kind]) == 256 * BigEndian([]) + kind;
  }

  lemma HardwareReply(msg: seq<byte>, start: nat, v: seq<byte>)
    requires Lands(msg, start, CLIENT_ID) && HoldsAt(msg, Landing(msg, start, CLIENT_ID), v) && |v| >= 7
    ensures ReplyReadable(msg, start, 1)
    ensures var r := ReplyTo(msg, start, 1);
            && r == Text(1, HardwareText(v[0], v[1..7]))
            && ReadHardware(r.text) == (SignedChar(v[0]), v[1..7])
  {
    HardwareBytes(msg, Landing(msg, start, CLIENT_ID), v);
    HardwareTold(msg, start, v[0], v[1..7]);
  }

  lemma HardwareTold(msg: seq<byte>, start: nat, hwt: byte, mac: seq<byte>)
    requires ReplyReadable(msg, start, 1)
    requires var i := Landing(msg, start, CLIENT_ID); msg[i + 2] == hwt && msg[i + 3..i + 9] == mac
    ensures var r := ReplyTo(msg, start, 1);
            r == Text(1, HardwareText(hwt, mac)) && ReadHardware(r.text) == (SignedChar(hwt), mac)
  {
    HardwareReads(hwt, mac);
  }

  lemma HardwareBytes(msg: seq<byte>, i: nat, v: seq<byte>)
    requires HoldsAt(msg, i, v) && |v| >= 7
    ensures msg[i + 2] == v[0] && msg[i + 3..i + 9] == v[1..7]
  {
    PartOfValue(msg, i, v, 1, 7);
    ReadsMeans(msg, i + 2, v);
    assert msg[i + 2 + 0] == v[0];
  }

  lemma LeaseReply(msg: seq<byte>, start: nat, v: seq<byte>)
    requires Lands(msg, start, LEASE_TIME) && HoldsAt(msg, Landing(msg, start, LEASE_TIME), v) && |v| <= 8
    ensures ReplyReadable(msg, start, 2)
    ensures ReplyTo(msg, start, 2) == Text(2, Decimal(LongLong(BigEndian(v))))
  {
    IntegerOption(msg, Landing(msg, start, LEASE_TIME), v);
  }

  lemma QuadReply(msg: seq<byte>, start: nat, kind: byte, v: seq<byte>)
    requires kind == 3 || kind == 5
    requires Lands(msg, start, WantedOption(kind)) && HoldsAt(msg, Landing(msg, start, WantedOption(kind)), v)
    requires |v| >= 4
    ensures ReplyReadable(msg, start, kind)
    ensures ReplyTo(msg, start, kind) == Text(if kind == 3 then 3 else 4, QuadText(v[..4]))
  {
    PartOfValue(msg, Landing(msg, start, WantedOption(kind)), v, 0, 4);
  }

  /** What a reply says of the options: the code for the type of the message, and a text from
      which the value of the option for that type is read back. */
  ghost predicate Tells(r: Reply, opts: seq<Opt>, kind: byte)
    requires KnownType(kind) ==> Offers(opts, WantedOption(kind))
    requires kind == 1 ==> |Value(opts, CLIENT_ID)| >= 7
    requires kind == 3 ==> |Value(opts, SERVER_ID)| >= 4
    requires kind == 5 ==> |Value(opts, SUBNET_MASK)| >= 4
  {
    match kind
    case 1 =>
      var v := Value(opts, CLIENT_ID);
      r == Text(1, HardwareText(v[0], v[1..7])) && ReadHardware(r.text) == (SignedChar(v[0]), v[1..7])
    case 2 =>
      var time := LongLong(BigEndian(Value(opts, LEASE_TIME)));
      r == Text(2, Decimal(time)) && ReadDecimal(r.text) == time
    case 3 =>
      var ip := Value(opts, SERVER_ID)[..4];
      r == Text(3, QuadText(ip)) && ReadQuad(r.text) == ip
    case 5 =>
      var mask := Value(opts, SUBNET_MASK)[..4];
      r == Text(4, QuadText(mask)) && ReadQuad(r.text) == mask
    case _ => r.Nothing?
  }

  lemma ReplyTells(header: seq<byte>, opts: seq<Opt>, tail: seq<byte>, kind: byte)
    requires WellFormed(header, opts, kind)
    ensures var msg, start := Message(header, opts, tail), |header| + 4;
            ReplyReadable(msg, start, kind) && Tells(ReplyTo(msg, start, kind), opts, kind)
  {
    if KnownType(kind) {
      var msg, start, v := Message(header, opts, tail), |header| + 4, Value(opts, WantedOption(kind));
      OptionInMessage(header, opts, tail, WantedOption(kind));
      if kind == 1 {
        HardwareReply(msg, start, v);
      } else if kind == 2 {
        LeaseReply(msg, start, v);
        DecimalReads(LongLong(BigEndian(v)));
      } else {
        QuadReply(msg, start, kind, v);
        QuadReads(v[..4]);
      }
    }
  }

  /** End to end: every well-formed message can be decoded; DISCOVER, OFFER, REQUEST and ACK
      give 1, 2, 3 and 4, any other type nothing; and the value of the option printed can be
      read back from the text. */
  lemma EndToEnd(header: seq<byte>, opts: seq<Opt>, tail: seq<byte>, kind: byte)
    requires WellFormed(header, opts, kind)
    ensures Readable(Message(header, opts, tail))
    ensures Tells(Decoded(Message(header, opts, tail)), opts, kind)
  {
    TypeIsRead(header, opts, tail, kind);
    ReplyTells(header, opts, tail, kind);
  }

  /** A lease time of up to seven bytes, or of eight with the top bit clear, is printed as
      the number it is; any other one of eight bytes is printed as a negative number. */
  lemma LeaseTimeExact(header: seq<byte>, opts: seq<Opt>, tail: seq<byte>)
    requires WellFormed(header, opts, 2)
    ensures var v, msg := Value(opts, LEASE_TIME), Message(header, opts, tail);
            && Readable(msg) && Decoded(msg).Text?
            && (ReadDecimal(Decoded(msg).text) == BigEndian(v) <==> |v| <= 7 || v[0] < 128)
            && ReadDecimal(Decoded(msg).text) ==
               if |v| <= 7 || v[0] < 128 then BigEndian(v) else BigEndian(v) - 0x1_0000_0000_0000_0000
  {
    var v := Value(opts, LEASE_TIME);
    EndToEnd(header, opts, tail, 2);
    ReverseThenLoad(v);
    LongLongExact(BigEndian(v), LongLong(BigEndian(v)));
  }

  /** The same with the numbers of RFC 2132 and the formats of the source written out: the cookie
      99, 130, 83, 99; the options 53 (message type), 61 (client identifier), 51 (lease time),
      54 (server identifier) and 1 (subnet mask). */
  lemma EndToEndByNumber(header: seq<byte>, opts: seq<Opt>, tail: seq<byte>, kind: byte)
    requires Encodable(opts) && Offers(opts, 53) && Value(opts, 53) == [kind]
    requires var s := header + [99, 130, 83, 99];
             forall i :: 0 <= i < |header| ==> s[i] != 99 || s[i + 1] != 130 || s[i + 2] != 83 || s[i + 3] != 99
    requires kind == 1 ==> Offers(opts, 61) && |Value(opts, 61)| >= 7
    requires kind == 2 ==> Offers(opts, 51) && |Value(opts, 51)| <= 8
    requires kind == 3 ==> Offers(opts, 54) && |Value(opts, 54)| >= 4
    requires kind == 5 ==> Offers(opts, 1) && |Value(opts, 1)| >= 4
    ensures var msg := header + [99, 130, 83, 99] + Serialize(opts) + tail;
            && Readable(msg)
            && (kind == 1 ==> Decoded(msg) == Text(1, HardwareLine(Value(opts, 61))))
            && (kind == 2 ==> Decoded(msg) == Text(2, Decimal(LongLong(BigEndian(Value(opts, 51))))))
            && (kind == 3 ==> Decoded(msg) == Text(3, QuadLine(Value(opts, 54))))
            && (kind == 5 ==> Decoded(msg) == Text(4, QuadLine(Value(opts, 1))))
            && (kind != 1 && kind != 2 && kind != 3 && kind != 5 ==> Decoded(msg) == Nothing)
  {
    NoCookieBefore(header);
    EndToEnd(header, opts, tail, kind);
    if kind == 1 {
      HardwareTextIs(Value(opts, 61)[0], Value(opts, 61)[1..7]);
    } else if kind == 3 {
      QuadTextIs(Value(opts, 54)[..4]);
    } else if kind == 5 {
      QuadTextIs(Value(opts, 1)[..4]);
    }
  }

  lemma NoCookieBefore(header: seq<byte>)
    requires var s := header + [99, 130, 83, 99];
             forall i :: 0 <= i < |header| ==> s[i] != 99 || s[i + 1] != 130 || s[i + 2] != 83 || s[i + 3] != 99
    ensures NoEarlierCookie(header)
  {
    var s := header + [99, 130, 83, 99];
    forall i: nat | i < |header|
      ensures !CookieAt(s, i)
    {
      assert s[i..i + 4] == [s[i], s[i + 1], s[i + 2], s[i + 3]];
    }
  }

  function HardwareLine(v: seq<byte>): (t: seq<byte>)
    requires |v| >= 7
  {
    Decimal(SignedChar(v[0])) + [' ' as int]
    + (Hex2(v[1]) + [':' as int] + Hex2(v[2]) + [':' as int] + Hex2(v[3])
       + [':' as int] + Hex2(v[4]) + [':' as int] + Hex2(v[5]) + [':' as int] + Hex2(v[6]))
  }

  function QuadLine(v: seq<byte>): (t: seq<byte>)
    requires |v| >= 4
  {
    Digits(v[0]) + ['.' as int] + Digits(v[1]) + ['.' as int] + Digits(v[2]) + ['.' as int] + Digits(v[3])
  }
}
