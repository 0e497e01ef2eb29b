/** The DHCP decoder of examen2/evaluate.c, and the messages of RFC 2131 and RFC 2132 that it
    reads. */
module DhcpDecoder {
  import opened Bytes

  const COOKIE: seq<byte> := [0x63, 0x82, 0x53, 0x63]

  const MESSAGE_TYPE: byte := 0x35
  const CLIENT_ID: byte := 0x3d
  const LEASE_TIME: byte := 0x33
  const SERVER_ID: byte := 0x36
  const SUBNET_MASK: byte := 0x01

  // ---- The cookie ----

  predicate CookieAt(msg: seq<byte>, i: nat) {
    i + 4 <= |msg| && msg[i..i + 4] == COOKIE
  }

  /** The first cookie at or after `from`, or the length of the message when there is none. */
  function CookieFrom(msg: seq<byte>, from: nat): (pos: nat)
    requires from <= |msg|
    ensures from <= pos <= |msg|
    ensures pos < |msg| ==> CookieAt(msg, pos)
    ensures forall i: nat :: from <= i < pos ==> !CookieAt(msg, i)
    decreases |msg| - from
  {
    if from == |msg| || CookieAt(msg, from) then from else CookieFrom(msg, from + 1)
  }

  // ---- The walk over the options, exactly as the index moves ----

  /** Where the index goes from an option that is not the wanted one. */
  function Jump(msg: seq<byte>, i: nat): (next: int)
    requires i + 1 < |msg|
  {
    SignedChar(msg[i + 1]) + 2 + i
  }

  /** An option of 128 bytes or more sends the index back, because its length is read as signed:
      by as much as it falls short of 254. */
  lemma JumpIs(msg: seq<byte>, i: nat)
    requires i + 1 < |msg|
    ensures Jump(msg, i) == if msg[i + 1] < 128 then i + 2 + msg[i + 1] else i + msg[i + 1] - 254
  {
  }

  /** The walk from `i` reads only bytes of the message and meets `code` after k jumps. */
  ghost predicate LandsIn(msg: seq<byte>, i: int, code: byte, k: nat)
    decreases k
  {
    && 0 <= i < |msg|
    && if k == 0 then msg[i] == code
       else msg[i] != code && i + 1 < |msg| && LandsIn(msg, Jump(msg, i), code, k - 1)
  }

  /** The index after k jumps. */
  ghost function IndexAfter(msg: seq<byte>, i: int, code: byte, k: nat): (j: nat)
    requires LandsIn(msg, i, code, k)
    ensures j < |msg| && msg[j] == code
    decreases k
  {
    if k == 0 then i else IndexAfter(msg, Jump(msg, i), code, k - 1)
  }

  ghost predicate Lands(msg: seq<byte>, i: int, code: byte) {
    exists k: nat :: LandsIn(msg, i, code, k)
  }

  ghost function Landing(msg: seq<byte>, i: int, code: byte): (j: nat)
    requires Lands(msg, i, code)
    ensures j < |msg| && msg[j] == code
  {
    var k: nat :| LandsIn(msg, i, code, k);
    IndexAfter(msg, i, code, k)
  }

  /** The walk is deterministic: it lands at one place, after one number of jumps. */
  lemma {:induction false} LandsOnce(msg: seq<byte>, i: int, code: byte, j: nat, k: nat)
    requires LandsIn(msg, i, code, j) && LandsIn(msg, i, code, k)
    ensures j == k
    decreases j
  {
    if j > 0 && k > 0 {
      LandsOnce(msg, Jump(msg, i), code, j - 1, k - 1);
    }
  }

  lemma LandingIs(msg: seq<byte>, i: int, code: byte, k: nat)
    requires LandsIn(msg, i, code, k)
    ensures Lands(msg, i, code) && Landing(msg, i, code) == IndexAfter(msg, i, code, k)
  {
    var j: nat :| LandsIn(msg, i, code, j) && Landing(msg, i, code) == IndexAfter(msg, i, code, j);
    LandsOnce(msg, i, code, j, k);
  }

  // ---- How the walk ends ----

  /** Where the walk is after some jumps: at the wanted option, outside the message, or at
      another option from which it can go on. */
  datatype Walk = At(index: nat) | Outside | Walking

  function WalkFrom(msg: seq<byte>, i: int, code: byte, jumps: nat): (w: Walk)
    decreases jumps
  {
    if !(0 <= i < |msg|) then Outside
    else if msg[i] == code then At(i)
    else if i + 1 >= |msg| then Outside
    else if jumps == 0 then Walking
    else WalkFrom(msg, Jump(msg, i), code, jumps - 1)
  }

  /** The index after k jumps, while it can jump. */
  function Trail(msg: seq<byte>, i: int, k: nat): (j: int)
    decreases k
  {
    if k == 0 || !(0 <= i < |msg| - 1) then i else Trail(msg, Jump(msg, i), k - 1)
  }

  /** More numbers than there are below n, all below n: two are the same. */
  lemma {:induction false} Pigeonhole(s: seq<int>, n: nat) returns (a: nat, b: nat)
    requires |s| > n && forall k :: 0 <= k < |s| ==> 0 <= s[k] < n
    ensures a < b < |s| && s[a] == s[b]
    decreases n
  {
    assert 0 <= s[0] < n;
    if j: nat :| j < |s| && s[j] == n - 1 {
      if k: nat :| k < |s| && k != j && s[k] == n - 1 {
        a, b := if j < k then j else k, if j < k then k else j;
      } else {
        // without s[j], its place taken by the last number
        var m := |s| - 1;
        var t := seq(m, k requires 0 <= k < m => if k == j then s[m] else s[k]);
        a, b := Pigeonhole(t, n - 1);
        if a == j {
          a, b := b, m;
        } else if b == j {
          b := m;
        }
      }
    } else {
      a, b := Pigeonhole(s, n - 1);
    }
  }

  /** If the index is inside the message for |msg| jumps, it has been somewhere twice. */
  lemma TrailRepeats(msg: seq<byte>, i: int) returns (a: nat, b: nat)
    requires forall k: nat :: k <= |msg| ==> 0 <= Trail(msg, i, k) < |msg|
    ensures a < b <= |msg| && Trail(msg, i, a) == Trail(msg, i, b)
  {
    var s := seq(|msg| + 1, k requires 0 <= k => Trail(msg, i, k));
    a, b := Pigeonhole(s, |msg|);
  }

  lemma {:induction false} LandsFrom(msg: seq<byte>, i: int, code: byte, k: nat, a: nat)
    requires LandsIn(msg, i, code, k) && a <= k
    ensures LandsIn(msg, Trail(msg, i, a), code, k - a)
    decreases a
  {
    if a > 0 {
      LandsFrom(msg, Jump(msg, i), code, k - 1, a - 1);
    }
  }

  /** A walk that lands makes fewer jumps than the message has bytes. */
  lemma LandsSoon(msg: seq<byte>, i: int, code: byte, k: nat)
    requires LandsIn(msg, i, code, k)
    ensures k < |msg|
  {
    if k >= |msg| {
      forall a: nat | a <= |msg|
        ensures 0 <= Trail(msg, i, a) < |msg|
      {
        LandsFrom(msg, i, code, k, a);
      }
      var a, b := TrailRepeats(msg, i);
      LandsFrom(msg, i, code, k, a);
      LandsFrom(msg, i, code, k, b);
      LandsOnce(msg, Trail(msg, i, a), code, k - a, k - b);
    }
  }

  lemma {:induction false} LandedWalk(msg: seq<byte>, i: int, code: byte, k: nat, jumps: nat)
    requires LandsIn(msg, i, code, k) && k <= jumps
    ensures WalkFrom(msg, i, code, jumps) == At(IndexAfter(msg, i, code, k))
    decreases k
  {
    if k > 0 {
      LandedWalk(msg, Jump(msg, i), code, k - 1, jumps - 1);
    }
  }

  lemma {:induction false} WalkLanded(msg: seq<byte>, i: int, code: byte, jumps: nat) returns (k: nat)
    requires WalkFrom(msg, i, code, jumps).At?
    ensures LandsIn(msg, i, code, k) && IndexAfter(msg, i, code, k) == WalkFrom(msg, i, code, jumps).index
    decreases jumps
  {
    k := 0;
    if msg[i] != code {
      k := WalkLanded(msg, Jump(msg, i), code, jumps - 1);
      k := k + 1;
    }
  }

  /** A walk that goes on for a + m jumps goes on for m jumps from where it is after a. */
  lemma {:induction false} WalkSplits(msg: seq<byte>, i: int, code: byte, a: nat, m: nat)
    requires WalkFrom(msg, i, code, a).Walking?
    ensures WalkFrom(msg, i, code, a + m) == WalkFrom(msg, Trail(msg, i, a), code, m)
    ensures 0 <= Trail(msg, i, a) < |msg|
    decreases a
  {
    if a > 0 {
      WalkSplits(msg, Jump(msg, i), code, a - 1, m);
    }
  }

  lemma {:induction false} WalkingSoFar(msg: seq<byte>, i: int, code: byte, a: nat, k: nat)
    requires WalkFrom(msg, i, code, k).Walking? && a <= k
    ensures WalkFrom(msg, i, code, a).Walking?
    decreases a
  {
    if a > 0 {
      WalkingSoFar(msg, Jump(msg, i), code, a - 1, k - 1);
    }
  }

  /** A walk that has been somewhere twice goes round for ever. */
  lemma {:induction false} Circles(msg: seq<byte>, i: int, code: byte, a: nat, b: nat, k: nat)
    requires a < b && WalkFrom(msg, i, code, b).Walking? && Trail(msg, i, a) == Trail(msg, i, b)
    ensures WalkFrom(msg, i, code, k).Walking?
    decreases k
  {
    if k <= b {
      WalkingSoFar(msg, i, code, k, b);
    } else {
      Circles(msg, i, code, a, b, a + (k - b));
      WalkingSoFar(msg, i, code, a, b);
      WalkSplits(msg, i, code, a, k - b);
      WalkSplits(msg, i, code, b, k - b);
    }
  }

  /** A walk that is still inside the message after |msg| jumps has been somewhere twice, and
      goes on for ever. */
  lemma StillWalking(msg: seq<byte>, i: int, code: byte) returns (a: nat, b: nat)
    requires WalkFrom(msg, i, code, |msg|).Walking?
    ensures a < b <= |msg| && Trail(msg, i, a) == Trail(msg, i, b)
    ensures forall k: nat :: WalkFrom(msg, i, code, k).Walking?
  {
    forall k: nat | k <= |msg|
      ensures 0 <= Trail(msg, i, k) < |msg|
    {
      WalkingSoFar(msg, i, code, k, |msg|);
      WalkSplits(msg, i, code, k, 0);
    }
    a, b := TrailRepeats(msg, i);
    WalkingSoFar(msg, i, code, b, |msg|);
    forall k: nat
      ensures WalkFrom(msg, i, code, k).Walking?
    {
      Circles(msg, i, code, a, b, k);
    }
  }

  /** Following |msg| jumps decides how the walk ends: it lands there, or leaves the message,
      or never ends. */
  lemma WalkDecides(msg: seq<byte>, i: int, code: byte)
    ensures WalkFrom(msg, i, code, |msg|).At? <==> Lands(msg, i, code)
    ensures Lands(msg, i, code) ==> WalkFrom(msg, i, code, |msg|) == At(Landing(msg, i, code))
    ensures WalkFrom(msg, i, code, |msg|).Walking? <==> forall k: nat :: WalkFrom(msg, i, code, k).Walking?
  {
    if WalkFrom(msg, i, code, |msg|).At? {
      var k := WalkLanded(msg, i, code, |msg|);
    }
    if k: nat :| LandsIn(msg, i, code, k) {
      LandsSoon(msg, i, code, k);
      LandedWalk(msg, i, code, k, |msg|);
      LandingIs(msg, i, code, k);
    }
    if WalkFrom(msg, i, code, |msg|).Walking? {
      var a, b := StillWalking(msg, i, code);
    }
  }

  // ---- What the decoder computes ----

  /** An integer option at `i`: its length byte is one the load can take, and the value is there. */
  predicate IntegerAt(msg: seq<byte>, i: nat) {
    i + 1 < |msg| && msg[i + 1] <= 8 && i + 2 + msg[i + 1] <= |msg|
  }

  function Integer(msg: seq<byte>, i: nat): (v: int)
    requires i + 1 < |msg| && i + 2 + msg[i + 1] <= |msg|
  {
    LongLong(BigEndian(msg[i + 2..i + 2 + msg[i + 1]]))
  }

  /** The option that the text of a message of this type comes from. */
  function WantedOption(kind: int): (code: byte) {
    if kind == 1 then CLIENT_ID
    else if kind == 2 then LEASE_TIME
    else if kind == 3 then SERVER_ID
    else SUBNET_MASK
  }

  predicate KnownType(kind: int) {
    kind == 1 || kind == 2 || kind == 3 || kind == 5
  }

  /** The option a reply of this type is made of is met, and its bytes are in the message. */
  ghost predicate ReplyReadable(msg: seq<byte>, start: nat, kind: int) {
    KnownType(kind) ==>
      && Lands(msg, start, WantedOption(kind))
      && var i := Landing(msg, start, WantedOption(kind));
         if kind == 1 then i + 9 <= |msg| else if kind == 2 then IntegerAt(msg, i) else i + 6 <= |msg|
  }

  /** What the source needs of its caller: a cookie, and walks and reads that stay inside the
      message. */
  ghost predicate Readable(msg: seq<byte>) {
    var start := CookieFrom(msg, 0) + 4;
    && CookieFrom(msg, 0) < |msg|
    && Lands(msg, start, MESSAGE_TYPE)
    && IntegerAt(msg, Landing(msg, start, MESSAGE_TYPE))
    && ReplyReadable(msg, start, Integer(msg, Landing(msg, start, MESSAGE_TYPE)))
  }

  /** A caller's test for Readable: it follows each walk for |msg| jumps. */
  predicate CanRead(msg: seq<byte>) {
    var pos := CookieFrom(msg, 0);
    && pos < |msg|
    && var w := WalkFrom(msg, pos + 4, MESSAGE_TYPE, |msg|);
       w.At? && IntegerAt(msg, w.index) && CanReply(msg, pos + 4, Integer(msg, w.index))
  }

  predicate CanReply(msg: seq<byte>, start: nat, kind: int) {
    KnownType(kind) ==>
      var w := WalkFrom(msg, start, WantedOption(kind), |msg|);
      && w.At?
      && if kind == 1 then w.index + 9 <= |msg|
         else if kind == 2 then IntegerAt(msg, w.index)
         else w.index + 6 <= |msg|
  }

  lemma CanReplyExact(msg: seq<byte>, start: nat, kind: int)
    ensures CanReply(msg, start, kind) <==> ReplyReadable(msg, start, kind)
  {
    WalkDecides(msg, start, WantedOption(kind));
  }

  /** The test is exact: it accepts the messages that the decoder can read. */
  lemma CanReadExact(msg: seq<byte>)
    ensures CanRead(msg) <==> Readable(msg)
  {
    var pos := CookieFrom(msg, 0);
    WalkDecides(msg, pos + 4, MESSAGE_TYPE);
    var w := WalkFrom(msg, pos + 4, MESSAGE_TYPE, |msg|);
    if w.At? && IntegerAt(msg, w.index) {
      CanReplyExact(msg, pos + 4, Integer(msg, w.index));
    }
  }

  /** "%d %02x:%02x:%02x:%02x:%02x:%02x" */
  function HardwareText(hwt: byte, mac: seq<byte>): (t: seq<byte>)
    requires |mac| == 6
  {
    Join([Decimal(SignedChar(hwt)), AddressText(mac)], 32)
  }

  function AddressText(mac: seq<byte>): (t: seq<byte>)
    requires |mac| == 6
  {
    Join(HexPairs(mac), 58)
  }

  /** "%d.%d.%d.%d" */
  function QuadText(ip: seq<byte>): (t: seq<byte>)
    requires |ip| == 4
  {
    Join([Digits(ip[0]), Digits(ip[1]), Digits(ip[2]), Digits(ip[3])], 46)
  }

  /** "%d.%d.%d.%d", said out. */
  lemma QuadTextIs(ip: seq<byte>)
    requires |ip| == 4
    ensures QuadText(ip) == Digits(ip[0]) + ['.' as int] + Digits(ip[1]) + ['.' as int]
                            + Digits(ip[2]) + ['.' as int] + Digits(ip[3])
  {
    JoinFour(Digits(ip[0]), Digits(ip[1]), Digits(ip[2]), Digits(ip[3]), 46);
  }

  /** "%d %02x:%02x:%02x:%02x:%02x:%02x", said out. */
  lemma HardwareTextIs(hwt: byte, mac: seq<byte>)
    requires |mac| == 6
    ensures HardwareText(hwt, mac) == Decimal(SignedChar(hwt)) + [' ' as int] + AddressText(mac)
    ensures AddressText(mac) ==
            Hex2(mac[0]) + [':' as int] + Hex2(mac[1]) + [':' as int] + Hex2(mac[2]) + [':' as int]
            + Hex2(mac[3]) + [':' as int] + Hex2(mac[4]) + [':' as int] + Hex2(mac[5])
  {
    JoinTwo(Decimal(SignedChar(hwt)), AddressText(mac), 32);
    var a, b, rest := Hex2(mac[0]), Hex2(mac[1]), [Hex2(mac[2]), Hex2(mac[3]), Hex2(mac[4]), Hex2(mac[5])];
    assert HexPairs(mac) == [a] + ([b] + rest);
    JoinFirst([], a, [b] + rest, 58);
    JoinFirst(a + [58], b, rest, 58);
    AddressEnd(a + [58] + b + [58], rest);
    assert [] + a == a;
  }

  lemma AddressEnd(front: seq<byte>, rest: seq<seq<byte>>)
    requires |rest| == 4
    ensures front + Join(rest, 58) == front + rest[0] + [58] + rest[1] + [58] + rest[2] + [58] + rest[3]
  {
    assert rest == [rest[0]] + [rest[1], rest[2], rest[3]];
    JoinFirst(front, rest[0], [rest[1], rest[2], rest[3]], 58);
    assert [rest[1], rest[2], rest[3]] == [rest[1]] + [rest[2], rest[3]];
    JoinFirst(front + rest[0] + [58], rest[1], [rest[2], rest[3]], 58);
    assert [rest[2], rest[3]] == [rest[2]] + [rest[3]];
    JoinFirst(front + rest[0] + [58] + rest[1] + [58], rest[2], [rest[3]], 58);
  }

  datatype Reply = Nothing | Text(code: int, text: seq<byte>)

  ghost function ReplyTo(msg: seq<byte>, start: nat, kind: int): (r: Reply)
    requires ReplyReadable(msg, start, kind)
  {
    if !KnownType(kind) then Nothing
    else
      var i := Landing(msg, start, WantedOption(kind));
      if kind == 1 then Text(1, HardwareText(msg[i + 2], msg[i + 3..i + 9]))
      else if kind == 2 then Text(2, Decimal(Integer(msg, i)))
      else Text(if kind == 3 then 3 else 4, QuadText(msg[i + 2..i + 6]))
  }

  ghost function Decoded(msg: seq<byte>): (r: Reply)
    requires Readable(msg)
  {
    var start := CookieFrom(msg, 0) + 4;
    ReplyTo(msg, start, Integer(msg, Landing(msg, start, MESSAGE_TYPE)))
  }

  /** Whatever message can be read, with its options in order or not, it has the cookie, and the
      integer where the walk for option 53 lands decides whether there is a reply. */
  lemma TypeDecides(msg: seq<byte>)
    requires Readable(msg)
    ensures var start := CookieFrom(msg, 0) + 4;
            && msg[start - 4..start] == [99, 130, 83, 99]
            && Lands(msg, start, 53) && IntegerAt(msg, Landing(msg, start, 53))
            && var kind := Integer(msg, Landing(msg, start, 53));
            && ReplyReadable(msg, start, kind) && Decoded(msg) == ReplyTo(msg, start, kind)
            && (Decoded(msg).Nothing? <==> kind != 1 && kind != 2 && kind != 3 && kind != 5)
  {
    assert CookieAt(msg, CookieFrom(msg, 0));
  }

  /** The reply is made of the bytes behind the place where the walk for its option lands. */
  lemma DiscoverReply(msg: seq<byte>, start: nat)
    requires ReplyReadable(msg, start, 1)
    ensures Lands(msg, start, 61) && Landing(msg, start, 61) + 9 <= |msg|
    ensures var i := Landing(msg, start, 61);
            ReplyTo(msg, start, 1) == Text(1, HardwareText(msg[i + 2], msg[i + 3..i + 9]))
  {
  }

  lemma OfferReply(msg: seq<byte>, start: nat)
    requires ReplyReadable(msg, start, 2)
    ensures Lands(msg, start, 51) && IntegerAt(msg, Landing(msg, start, 51))
    ensures ReplyTo(msg, start, 2) == Text(2, Decimal(Integer(msg, Landing(msg, start, 51))))
  {
  }

  lemma RequestReply(msg: seq<byte>, start: nat)
    requires ReplyReadable(msg, start, 3)
    ensures Lands(msg, start, 54) && Landing(msg, start, 54) + 6 <= |msg|
    ensures var i := Landing(msg, start, 54); ReplyTo(msg, start, 3) == Text(3, QuadText(msg[i + 2..i + 6]))
  {
  }

  lemma AckReply(msg: seq<byte>, start: nat)
    requires ReplyReadable(msg, start, 5)
    ensures Lands(msg, start, 1) && Landing(msg, start, 1) + 6 <= |msg|
    ensures var i := Landing(msg, start, 1); ReplyTo(msg, start, 5) == Text(4, QuadText(msg[i + 2..i + 6]))
  {
  }

  // ---- The decoder as it is written ----

  method FindCookie(msg: array<byte>) returns (pos: nat)
    requires CookieFrom(msg[..], 0) < msg.Length
    ensures pos == CookieFrom(msg[..], 0)
  {
    ghost var first := CookieFrom(msg[..], 0);
    assert msg[..][first..first + 4] == [msg[first], msg[first + 1], msg[first + 2], msg[first + 3]];
    pos := 0;
    while !(msg[pos] == 0x63 && msg[pos + 1] == 0x82 && msg[pos + 2] == 0x53 && msg[pos + 3] == 0x63)
      invariant pos <= first
      decreases first - pos
    {
      pos := pos + 1;
    }
    assert msg[..][pos..pos + 4] == [msg[pos], msg[pos + 1], msg[pos + 2], msg[pos + 3]];
    assert CookieAt(msg[..], pos);
  }

  method FindOption(msg: array<byte>, start: nat, code: byte) returns (index: nat)
    requires Lands(msg[..], start, code)
    ensures index == Landing(msg[..], start, code)
  {
    ghost var s := msg[..];
    ghost var k: nat :| LandsIn(s, start, code, k);
    LandingIs(s, start, code, k);
    index := start;
    while msg[index] != code
      invariant LandsIn(s, index, code, k)
      invariant IndexAfter(s, index, code, k) == Landing(s, start, code)
      decreases k
    {
      index := SignedChar(msg[index + 1]) + 2 + index;
      k := k - 1;
    }
  }

  method ReadInteger(msg: array<byte>, index: nat) returns (v: int)
    requires IntegerAt(msg[..], index)
    ensures v == Integer(msg[..], index)
  {
    var length := SignedChar(msg[index + 1]);
    v := LoadReversed(msg, index + 2, length);
    assert msg[..][index + 2..index + 2 + length] == msg[index + 2..index + 2 + length];
  }

  method PrintHardware(msg: array<byte>, index: nat, resultado: array<byte>)
    requires msg != resultado && index + 9 <= msg.Length
    requires |HardwareText(msg[index + 2], msg[..][index + 3..index + 9])| < resultado.Length
    modifies resultado
    ensures CText(resultado[..]) == HardwareText(old(msg[index + 2]), old(msg[..])[index + 3..index + 9])
  {
    var hwt, mac := msg[index + 2], msg[index + 3..index + 9];
    assert mac == msg[..][index + 3..index + 9];
    HardwareTextNulFree(hwt, mac);
    PrintResult(resultado, HardwareText(hwt, mac));
  }

  method PrintQuad(msg: array<byte>, index: nat, resultado: array<byte>)
    requires msg != resultado && index + 6 <= msg.Length
    requires |QuadText(msg[..][index + 2..index + 6])| < resultado.Length
    modifies resultado
    ensures CText(resultado[..]) == QuadText(old(msg[..])[index + 2..index + 6])
  {
    var ip := msg[index + 2..index + 6];
    assert ip == msg[..][index + 2..index + 6];
    QuadTextNulFree(ip);
    PrintResult(resultado, QuadText(ip));
  }

  /** The chain of tests on the message type. */
  method Answer(msg: array<byte>, start: nat, kind: int, resultado: array<byte>) returns (ret: int)
    requires msg != resultado && ReplyReadable(msg[..], start, kind)
    requires ReplyTo(msg[..], start, kind).Text? ==> |ReplyTo(msg[..], start, kind).text| < resultado.Length
    modifies resultado
    ensures match ReplyTo(old(msg[..]), start, kind)
            case Nothing => ret == 0 && resultado[..] == old(resultado[..])
            case Text(code, text) => ret == code && CText(resultado[..]) == text
  {
    if kind == 1 {
      var index := FindOption(msg, start, CLIENT_ID);
      PrintHardware(msg, index, resultado);
      return 1;
    } else if kind == 2 {
      var index := FindOption(msg, start, LEASE_TIME);
      var time := ReadInteger(msg, index);
      DecimalIsText(time);
      PrintResult(resultado, Decimal(time));
      return 2;
    } else if kind == 3 {
      var index := FindOption(msg, start, SERVER_ID);
      PrintQuad(msg, index, resultado);
      return 3;
    } else if kind == 5 {
      var index := FindOption(msg, start, SUBNET_MASK);
      PrintQuad(msg, index, resultado);
      return 4;
    }
    return 0;
  }

  method Dhcp(msg: array<byte>, resultado: array<byte>) returns (ret: int)
    requires msg != resultado && Readable(msg[..])
    requires Decoded(msg[..]).Text? ==> |Decoded(msg[..]).text| < resultado.Length
    modifies resultado
    ensures match Decoded(old(msg[..]))
            case Nothing => ret == 0 && resultado[..] == old(resultado[..])
            case Text(code, text) => ret == code && CText(resultado[..]) == text
  {
    var pos := FindCookie(msg);
    var typeIdx := FindOption(msg, pos + 4, MESSAGE_TYPE);
    var kind := ReadInteger(msg, typeIdx);
    ret := Answer(msg, pos + 4, kind, resultado);
  }

  lemma QuadTextNulFree(ip: seq<byte>)
    requires |ip| == 4
    ensures NulFree(QuadText(ip))
  {
    QuadFields(ip);
    JoinAvoids([Digits(ip[0]), Digits(ip[1]), Digits(ip[2]), Digits(ip[3])], 46, 0);
    NulFreeMeans(QuadText(ip));
  }

  lemma QuadFields(ip: seq<byte>)
    requires |ip| == 4
    ensures forall i, c :: 0 <= i < 4 && c in Digits(ip[i]) ==> 48 <= c <= 57
  {
    forall i | 0 <= i < 4
      ensures forall c :: c in Digits(ip[i]) ==> 48 <= c <= 57
    {
      DigitsOnly(ip[i]);
    }
  }

  function HexPairs(mac: seq<byte>): (pairs: seq<seq<byte>>)
    ensures |pairs| == |mac| && forall i :: 0 <= i < |mac| ==> pairs[i] == Hex2(mac[i])
  {
    seq(|mac|, i requires 0 <= i < |mac| => Hex2(mac[i]))
  }

  lemma HardwareTextNulFree(hwt: byte, mac: seq<byte>)
    requires |mac| == 6
    ensures NulFree(HardwareText(hwt, mac))
  {
    JoinAvoids(HexPairs(mac), 58, 0);
    DecimalOnly(SignedChar(hwt));
    JoinAvoids([Decimal(SignedChar(hwt)), AddressText(mac)], 32, 0);
    NulFreeMeans(HardwareText(hwt, mac));
  }

  // ---- The text determines the value ----

  function ReadQuad(t: seq<byte>): (ip: seq<int>) {
    var parts := Split(t, 46);
    seq(|parts|, i requires 0 <= i < |parts| => ReadDigits(parts[i]))
  }

  lemma QuadReads(ip: seq<byte>)
    requires |ip| == 4
    ensures ReadQuad(QuadText(ip)) == ip
  {
    var parts := [Digits(ip[0]), Digits(ip[1]), Digits(ip[2]), Digits(ip[3])];
    assert forall i :: 0 <= i < 4 ==> parts[i] == Digits(ip[i]);
    QuadFields(ip);
    SplitJoin(parts, 46);
    forall i | 0 <= i < 4
      ensures ReadDigits(parts[i]) == ip[i]
    {
      DigitsRead(ip[i]);
    }
  }

  /** The type and the address of a hardware text; pairs that are not two digits read as 0. */
  function ReadHardware(t: seq<byte>): (r: (int, seq<int>)) {
    var fields := Split(t, 32);
    if |fields| != 2 then (0, [])
    else
      var pairs := Split(fields[1], 58);
      (ReadDecimal(fields[0]),
       seq(|pairs|, i requires 0 <= i < |pairs| => if |pairs[i]| == 2 then ReadHex2(pairs[i]) else 0))
  }

  lemma HardwareFields(hwt: byte, mac: seq<byte>)
    requires |mac| == 6
    ensures Split(HardwareText(hwt, mac), 32) == [Decimal(SignedChar(hwt)), AddressText(mac)]
  {
    JoinAvoids(HexPairs(mac), 58, 32);
    DecimalOnly(SignedChar(hwt));
    SplitJoin([Decimal(SignedChar(hwt)), AddressText(mac)], 32);
  }

  lemma HardwareReads(hwt: byte, mac: seq<byte>)
    requires |mac| == 6
    ensures ReadHardware(HardwareText(hwt, mac)) == (SignedChar(hwt), mac)
  {
    HardwareFields(hwt, mac);
    DecimalReads(SignedChar(hwt));
    SplitJoin(HexPairs(mac), 58);
    forall i | 0 <= i < 6
      ensures ReadHex2(HexPairs(mac)[i]) == mac[i]
    {
      Hex2Reads(mac[i]);
    }
    assert ReadHardware(HardwareText(hwt, mac)).1 == mac;
  }

  lemma {:induction false} JoinAvoids(parts: seq<seq<byte>>, sep: byte, other: byte)
    requires parts != [] && sep != other && forall i :: 0 <= i < |parts| ==> other !in parts[i]
    ensures other !in Join(parts, sep)
  {
    if |parts| > 1 {
      JoinAvoids(parts[1..], sep, other);
    }
  }
}
