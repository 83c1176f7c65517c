/**
 Framing of one TCP connection: a variable-length integer, then that many bytes of body. Once the
 cipher is on, the body is enciphered and the length prefix stays plain.
*/
module PacketIo {
  import opened Common
  import opened Cfb8

  const FRAME_LIMIT: nat := 2_097_152

  datatype FrameError = ConnectionClosed | VarIntTooLarge | FrameTooLarge

  /** One end of a connection: plain, or with a cipher and the one register it uses both ways. */
  datatype Link = Plain | Secured(aes: BlockCipher, register: Block)

  // ----- the length prefix -----

  /** The outcome of scanning a prefix: its value and where it ends, or why there is none. */
  datatype Prefix = Complete(length: nat, end: nat) | Incomplete | TooLarge

  function Low7(b: U8): (n: nat)
    ensures n < 128
  {
    b % 128
  }

  predicate More(b: U8) {
    b >= 128
  }

  /** Scans from prefix byte `k` on, least significant first; a fifth byte must be the last. The source joins the
      seven-bit groups with `|=`; they never overlap, so adding them is the same. */
  function Scan(data: seq<U8>, k: nat): (p: Prefix)
    requires k <= 4
    ensures p.Complete? ==> k < p.end <= |data| && p.end <= 5
    decreases 4 - k
  {
    if k >= |data| then Incomplete
    else if !More(data[k]) then Complete(Low7(data[k]), k + 1)
    else if k == 4 then TooLarge
    else match Scan(data, k + 1)
      case Complete(length, end) => Complete(Low7(data[k]) + 128 * length, end)
      case other => other
  }

  /** 128 to the power `k`, the place value of prefix byte `k`. */
  function Place(k: nat): nat {
    if k == 0 then 1 else 128 * Place(k - 1)
  }

  /** The bytes of a value, seven bits at a time, least significant first. */
  function VarInt(v: nat): seq<U8> {
    if v < 128 then [v] else [v % 128 + 128] + VarInt(v / 128)
  }

  /** Some prefixes on paper. */
  lemma WrittenPrefixes()
    ensures VarInt(0) == [0] && VarInt(127) == [127] && VarInt(300) == [0xAC, 0x02]
    ensures VarInt(2097151) == [0xFF, 0xFF, 0x7F]
  {
    assert VarInt(16383) == [0xFF] + [0x7F];
  }

  /** The scan reads back what `VarInt` wrote, whatever follows it. */
  lemma {:induction false} ScanVarInt(before: seq<U8>, v: nat, rest: seq<U8>)
    requires |before| <= 4 && v < Place(5 - |before|)
    ensures Scan(before + VarInt(v) + rest, |before|) == Complete(v, |before| + |VarInt(v)|)
    decreases v
  {
    assert Place(0) == 1 && Place(1) == 128;
    var k := |before|;
    var data := before + VarInt(v) + rest;
    assert data[k] == VarInt(v)[0];
    if v >= 128 {
      var byte := v % 128 + 128;
      assert Place(5 - k) == 128 * Place(4 - k);
      ScanVarInt(before + [byte], v / 128, rest);
      assert data == before + [byte] + VarInt(v / 128) + rest;
    }
  }

  // ----- frames -----

  /** What the link makes of a body it reads. */
  function Received(link: Link, cipher: seq<U8>): seq<U8> {
    match link
    case Plain => cipher
    case Secured(aes, register) => Decipher(aes, register, cipher)
  }

  function After(link: Link, cipher: seq<U8>): Link {
    match link
    case Plain => Plain
    case Secured(aes, register) => Secured(aes, Register(register, cipher))
  }

  function Sent(link: Link, body: seq<U8>): seq<U8> {
    match link
    case Plain => body
    case Secured(aes, register) => Encipher(aes, register, body)
  }

  /** What the writer takes to be the body: the bytes after the prefix, none when there is no prefix. */
  function Payload(data: seq<U8>): (body: seq<U8>)
    ensures |body| <= |data|
  {
    var scanned := Scan(data, 0);
    if scanned.Complete? then data[scanned.end..] else []
  }

  function Header(data: seq<U8>): seq<U8> {
    data[..|data| - |Payload(data)|]
  }

  /** The bytes put on the wire for `data`, and the link afterwards. */
  function SendFrame(link: Link, data: seq<U8>): Result<(seq<U8>, Link), FrameError> {
    if link.Plain? then Ok((data, link))
    else if Scan(data, 0).TooLarge? then Err(VarIntTooLarge)
    else
      var cipher := Sent(link, Payload(data));
      Ok((Header(data) + cipher, After(link, cipher)))
  }

  /** Cuts a body of the announced length off what follows the prefix. The length is an `i32` seen as an
      unsigned machine word, so a negative one is over any limit. */
  function CutBody(length: nat, tail: seq<U8>): Result<(seq<U8>, seq<U8>), FrameError> {
    var n := length % 0x1_0000_0000;
    if n > FRAME_LIMIT then Err(FrameTooLarge)
    else if |tail| < n then Err(ConnectionClosed)
    else Ok((tail[..n], tail[n..]))
  }

  function NextBody(wire: seq<U8>): Result<(seq<U8>, seq<U8>), FrameError> {
    match Scan(wire, 0)
    case Incomplete => Err(ConnectionClosed)
    case TooLarge => Err(VarIntTooLarge)
    case Complete(length, end) => CutBody(length, wire[end..])
  }

  /** The next frame of `wire`, the bytes after it, and the link afterwards. */
  function ReceiveFrame(link: Link, wire: seq<U8>): Result<(seq<U8>, seq<U8>, Link), FrameError> {
    match NextBody(wire)
    case Err(e) => Err(e)
    case Ok(cut) => Ok((Received(link, cut.0), cut.1, After(link, cut.0)))
  }

  /** `data` is a complete length prefix followed by exactly that many bytes. */
  predicate Framed(data: seq<U8>) {
    var scanned := Scan(data, 0);
    scanned.Complete? && scanned.length == |data| - scanned.end
  }

  /** What the codec builds, prefix then body, is framed. */
  lemma VarIntFrames(body: seq<U8>)
    requires |body| < 0x8_0000_0000
    ensures Framed(VarInt(|body|) + body) && Payload(VarInt(|body|) + body) == body
  {
    assert Place(5) == 0x8_0000_0000 by {
      assert Place(1) == 128 && Place(2) == 16384;
      assert Place(3) == 128 * Place(2) && Place(4) == 128 * Place(3);
    }
    assert [] + VarInt(|body|) + body == VarInt(|body|) + body;
    ScanVarInt([], |body|, body);
  }

  /** A completed scan depends on nothing after the prefix. */
  lemma {:induction false} ScanIgnoresRest(data: seq<U8>, other: seq<U8>, k: nat)
    requires k <= 4 && Scan(data, k).Complete? && Scan(data, k).end <= |other|
    requires forall i :: k <= i < Scan(data, k).end ==> other[i] == data[i]
    ensures Scan(other, k) == Scan(data, k)
    decreases 4 - k
  {
    if More(data[k]) {
      ScanIgnoresRest(data, other, k + 1);
    }
  }

  lemma HeadScan(data: seq<U8>, head: seq<U8>, tail: seq<U8>)
    requires Scan(data, 0).Complete? && |head| == Scan(data, 0).end
    requires forall i :: 0 <= i < |head| ==> head[i] == data[i]
    ensures Scan(head + tail, 0) == Scan(data, 0)
  {
    ScanIgnoresRest(data, head + tail, 0);
  }

  lemma TwoParts<T>(a: seq<T>, b: seq<T>)
    ensures (a + b)[..|a|] == a && (a + b)[|a|..] == b
  {
  }

  lemma CutBodyAnnounced(cipher: seq<U8>, rest: seq<U8>)
    requires |cipher| < 0x8000_0000
    ensures CutBody(|cipher|, cipher + rest) ==
      if |cipher| <= FRAME_LIMIT then Ok((cipher, rest)) else Err(FrameTooLarge)
  {
    TwoParts(cipher, rest);
  }

  /** A prefix is read together with the bytes it announces, whatever they are. */
  lemma NextBodyAnnounced(data: seq<U8>, cipher: seq<U8>, rest: seq<U8>)
    requires Framed(data) && |cipher| == |Payload(data)| < 0x8000_0000
    ensures NextBody(Header(data) + (cipher + rest)) ==
      if |cipher| <= FRAME_LIMIT then Ok((cipher, rest)) else Err(FrameTooLarge)
  {
    var head := Header(data);
    assert forall i :: 0 <= i < |head| ==> head[i] == data[i];
    HeadScan(data, head, cipher + rest);
    TwoParts(head, cipher + rest);
    CutBodyAnnounced(cipher, rest);
  }

  lemma SendFramed(link: Link, data: seq<U8>)
    requires Framed(data)
    ensures
      var cipher := Sent(link, Payload(data));
      SendFrame(link, data) == Ok((Header(data) + cipher, After(link, cipher)))
  {
    assert data == Header(data) + Payload(data);
  }

  lemma ReceivedSent(link: Link, body: seq<U8>)
    ensures Received(link, Sent(link, body)) == body && |Sent(link, body)| == |body|
  {
    if link.Secured? {
      DecipherInverts(link.aes, link.register, body);
    }
  }

  lemma ReceiveAnnounced(link: Link, data: seq<U8>, cipher: seq<U8>, rest: seq<U8>)
    requires Framed(data) && |cipher| == |Payload(data)| < 0x8000_0000
    ensures ReceiveFrame(link, Header(data) + cipher + rest) ==
      if |cipher| <= FRAME_LIMIT then Ok((Received(link, cipher), rest, After(link, cipher))) else Err(FrameTooLarge)
  {
    ConcatAssociates(Header(data), cipher, rest);
    NextBodyAnnounced(data, cipher, rest);
  }

  /** One frame written at one end is read at the other, exactly when its body is within the limit,
      and leaves the two ends in the same state. */
  lemma FrameRoundTrip(link: Link, data: seq<U8>, rest: seq<U8>)
    requires Framed(data) && |Payload(data)| < 0x8000_0000
    ensures
      var sent := SendFrame(link, data);
      sent.Ok? &&
      ReceiveFrame(link, sent.value.0 + rest) ==
        if |Payload(data)| <= FRAME_LIMIT then Ok((Payload(data), rest, sent.value.1)) else Err(FrameTooLarge)
  {
    var body := Payload(data);
    SendFramed(link, data);
    ReceivedSent(link, body);
    ReceiveAnnounced(link, data, Sent(link, body), rest);
  }

  // ----- streams of frames -----

  function SendAll(link: Link, frames: seq<seq<U8>>): Result<(seq<U8>, Link), FrameError>
    decreases |frames|
  {
    if frames == [] then Ok(([], link))
    else match SendFrame(link, frames[0])
      case Err(e) => Err(e)
      case Ok(first) => match SendAll(first.1, frames[1..])
        case Err(e) => Err(e)
        case Ok(others) => Ok((first.0 + others.0, others.1))
  }

  function ReceiveAll(link: Link, wire: seq<U8>, count: nat): Result<(seq<seq<U8>>, seq<U8>, Link), FrameError>
    decreases count
  {
    if count == 0 then Ok(([], wire, link))
    else match ReceiveFrame(link, wire)
      case Err(e) => Err(e)
      case Ok(first) => match ReceiveAll(first.2, first.1, count - 1)
        case Err(e) => Err(e)
        case Ok(others) => Ok(([first.0] + others.0, others.1, others.2))
  }

  ghost predicate AllFramed(frames: seq<seq<U8>>) {
    forall i :: 0 <= i < |frames| ==> Framed(frames[i]) && |Payload(frames[i])| <= FRAME_LIMIT
  }

  function Bodies(frames: seq<seq<U8>>): seq<seq<U8>> {
    if frames == [] then [] else [Payload(frames[0])] + Bodies(frames[1..])
  }

  function Joined(parts: seq<seq<U8>>): seq<U8> {
    if parts == [] then [] else parts[0] + Joined(parts[1..])
  }

  /** One more frame in front of a stream that is sent and received as it should be. */
  lemma StreamCons(link: Link, data: seq<U8>, first: (seq<U8>, Link), frames: seq<seq<U8>>,
                   others: (seq<U8>, Link), bodies: seq<seq<U8>>, rest: seq<U8>)
    requires Framed(data) && |Payload(data)| <= FRAME_LIMIT
    requires SendFrame(link, data) == Ok(first)
    requires SendAll(first.1, frames) == Ok(others)
    requires ReceiveAll(first.1, others.0 + rest, |frames|) == Ok((bodies, rest, others.1))
    ensures SendAll(link, [data] + frames) == Ok((first.0 + others.0, others.1))
    ensures ReceiveAll(link, first.0 + others.0 + rest, |frames| + 1) == Ok(([Payload(data)] + bodies, rest, others.1))
  {
    FrameRoundTrip(link, data, others.0 + rest);
    ConcatAssociates(first.0, others.0, rest);
    assert ([data] + frames)[1..] == frames;
  }

  /** Any number of frames in one direction: the bodies arrive in order and both ends agree again. */
  lemma {:induction false} StreamRoundTrip(link: Link, frames: seq<seq<U8>>, rest: seq<U8>)
    requires AllFramed(frames)
    ensures
      var sent := SendAll(link, frames);
      sent.Ok? && ReceiveAll(link, sent.value.0 + rest, |frames|) == Ok((Bodies(frames), rest, sent.value.1))
    decreases |frames|
  {
    hide SendFrame, ReceiveFrame, Framed, Payload;
    if frames == [] {
      assert [] + rest == rest;
    } else {
      var data, tail := frames[0], frames[1..];
      SendFramed(link, data);
      var first := SendFrame(link, data).value;
      StreamRoundTrip(first.1, tail, rest);
      var others := SendAll(first.1, tail).value;
      assert frames == [data] + tail;
      StreamCons(link, data, first, tail, others, Bodies(tail), rest);
    }
  }

  /** The cipher sees one text: where frames begin and end does not show in the register, which ends as the
      last 16 bytes of the initial register followed by the enciphered bodies. */
  lemma {:induction false} RegisterIgnoresFraming(aes: BlockCipher, register: Block, frames: seq<seq<U8>>)
    requires AllFramed(frames)
    ensures
      var text := Joined(Bodies(frames));
      var written := SendAll(Secured(aes, register), frames);
      written.Ok? && written.value.1 == Secured(aes, Register(register, Encipher(aes, register, text)))
    decreases |frames|
  {
    if frames == [] {
      assert Register(register, []) == register;
    } else {
      var head, tail := Payload(frames[0]), Joined(Bodies(frames[1..]));
      var next := Register(register, Encipher(aes, register, head));
      assert SendFrame(Secured(aes, register), frames[0]).value.1 == Secured(aes, next);
      RegisterIgnoresFraming(aes, next, frames[1..]);
      EncipherJoins(aes, register, head, tail);
      assert Bodies(frames)[1..] == Bodies(frames[1..]);
    }
  }

  // ----- the stream object -----

  /** A scan resumed at byte `k` after bytes worth `length`. */
  function Resumed(length: nat, k: nat, p: Prefix): Prefix {
    match p
    case Complete(l, end) => Complete(length + Place(k) * l, end)
    case other => other
  }

  lemma Distribute(place: nat, low: nat, l: nat)
    ensures place * (low + 128 * l) == low * place + (128 * place) * l
  {
  }

  lemma ScanStep(data: seq<U8>, k: nat, length: nat)
    requires k <= 4 && k < |data|
    ensures !More(data[k]) ==> Resumed(length, k, Scan(data, k)) == Complete(length + Low7(data[k]) * Place(k), k + 1)
    ensures More(data[k]) && k == 4 ==> Resumed(length, k, Scan(data, k)) == TooLarge
    ensures More(data[k]) && k < 4 ==>
      Resumed(length, k, Scan(data, k)) == Resumed(length + Low7(data[k]) * Place(k), k + 1, Scan(data, k + 1))
  {
    if More(data[k]) && k < 4 && Scan(data, k + 1).Complete? {
      Distribute(Place(k), Low7(data[k]), Scan(data, k + 1).length);
    }
  }

  /** Where the writer sees the body begin; no answer when the prefix runs past five bytes. */
  method PrefixLength(data: seq<U8>) returns (size: Option<nat>)
    ensures match Scan(data, 0)
      case Complete(_, end) => size == Some(end)
      case Incomplete => size == Some(|data|)
      case TooLarge => size == None
  {
    var n: nat := 0;
    ghost var length: nat := 0;
    while n < |data|
      invariant n <= |data| && n <= 4
      invariant Scan(data, 0) == Resumed(length, n, Scan(data, n))
    {
      var byte := data[n];
      ScanStep(data, n, length);
      length := length + Low7(byte) * Place(n);
      n := n + 1;
      if !More(byte) {
        return Some(n);
      }
      if n >= 5 {
        return None;
      }
    }
    return Some(n);
  }

  class PacketStream {
    var input: seq<U8>   // what the peer has sent and nobody has read
    var output: seq<U8>  // everything written so far
    var cipher: AesCfb8?

    constructor (input: seq<U8>)
      ensures this.input == input && output == [] && Link() == Plain
    {
      this.input, output, cipher := input, [], null;
    }

    ghost function Link(): Link
      reads this, cipher
    {
      if cipher == null then Plain else Secured(cipher.aes, cipher.state)
    }

    method EnableEncryption(aes: BlockCipher, key: Block)
      modifies this`cipher
      ensures Link() == Secured(aes, key) && fresh(cipher)
    {
      cipher := new AesCfb8(aes, key);
    }

    /** Reads the length prefix, byte by byte. */
    method ReadLength() returns (r: Result<nat, FrameError>)
      modifies this`input
      ensures match Scan(old(input), 0)
        case Complete(length, end) => r == Ok(length) && input == old(input)[end..]
        case Incomplete => r == Err(ConnectionClosed)
        case TooLarge => r == Err(VarIntTooLarge)
    {
      var length: nat, k: nat := 0, 0;  // the source's shift is 7 * k
      ghost var wire := input;
      while true
        invariant k <= 4 && k <= |wire| && input == wire[k..]
        invariant Scan(wire, 0) == Resumed(length, k, Scan(wire, k))
        decreases 5 - k
      {
        if input == [] {
          return Err(ConnectionClosed);
        }
        var byte := input[0];
        ScanStep(wire, k, length);
        input := input[1..];
        length := length + Low7(byte) * Place(k);
        k := k + 1;
        if !More(byte) {
          return Ok(length);
        }
        if k == 5 {
          return Err(VarIntTooLarge);
        }
      }
    }

    method ReadFrame() returns (r: Result<seq<U8>, FrameError>)
      modifies this`input, cipher
      ensures output == old(output) && cipher == old(cipher)
      ensures match ReceiveFrame(old(Link()), old(input))
        case Ok(read) => r == Ok(read.0) && input == read.1 && Link() == read.2
        case Err(e) => r == Err(e) && Link() == old(Link())
    {
      var scanned := ReadLength();
      if scanned.Err? {
        return Err(scanned.error);
      }
      var n := scanned.value % 0x1_0000_0000;
      if n > FRAME_LIMIT {
        return Err(FrameTooLarge);
      }
      if |input| < n {
        input := [];
        return Err(ConnectionClosed);
      }
      var frame := new U8[n](i requires 0 <= i < n && n <= |input| reads this => input[i]);
      input := input[n..];
      ghost var end := Scan(old(input), 0).end;
      assert frame[..] == old(input)[end..][..n];
      if cipher != null {
        ghost var received, register := frame[..], cipher.state;
        cipher.Decrypt(frame);
        DecipherMeets(cipher.aes, register, frame[..], received);
      }
      return Ok(frame[..]);
    }

    method WriteFrame(data: seq<U8>) returns (r: Result<(), FrameError>)
      modifies this`output, cipher
      ensures input == old(input) && cipher == old(cipher)
      ensures match SendFrame(old(Link()), data)
        case Ok(sent) => r == Ok(()) && output == old(output) + sent.0 && Link() == sent.1
        case Err(e) => r == Err(e) && output == old(output) && Link() == old(Link())
    {
      if cipher == null {
        output := output + data;
        return Ok(());
      }
      var prefix := PrefixLength(data);
      if prefix.None? {
        return Err(VarIntTooLarge);
      }
      var prefixLen := prefix.value;
      var body := data[prefixLen..];
      var encrypted := new U8[|body|](i requires 0 <= i < |body| => body[i]);
      assert encrypted[..] == body == Payload(data);
      ghost var register := cipher.state;
      cipher.Encrypt(encrypted);
      EncipherMeets(cipher.aes, register, body, encrypted[..]);
      output := output + (data[..prefixLen] + encrypted[..]);
      return Ok(());
    }
  }

  // ----- two endpoints -----

  datatype End = Left | Right

  /** One turn of a conversation: everything one end says before the other replies. */
  datatype Turn = Turn(from: End, frames: seq<seq<U8>>)

  /** Plays turns between two ends, each with one register for both directions; a turn is read in full
      before the next begins. The result is what was heard, and the final state of each end. */
  function Converse(left: Link, right: Link, turns: seq<Turn>): Result<(seq<seq<seq<U8>>>, Link, Link), FrameError>
    decreases |turns|
  {
    if turns == [] then Ok(([], left, right))
    else
      var speaker, listener := if turns[0].from.Left? then left else right, if turns[0].from.Left? then right else left;
      match SendAll(speaker, turns[0].frames)
      case Err(e) => Err(e)
      case Ok(said) => match ReceiveAll(listener, said.0, |turns[0].frames|)
        case Err(e) => Err(e)
        case Ok(heard) =>
          match Converse(if turns[0].from.Left? then said.1 else heard.2,
                         if turns[0].from.Left? then heard.2 else said.1, turns[1..])
          case Err(e) => Err(e)
          case Ok(others) => Ok(([heard.0] + others.0, others.1, others.2))
  }

  /** Half-duplex conversations never lose synchronisation. */
  lemma {:induction false} HalfDuplexRoundTrip(link: Link, turns: seq<Turn>)
    requires forall i :: 0 <= i < |turns| ==> AllFramed(turns[i].frames)
    ensures
      var r := Converse(link, link, turns);
      && r.Ok? && |r.value.0| == |turns| && r.value.1 == r.value.2
      && forall i :: 0 <= i < |turns| ==> r.value.0[i] == Bodies(turns[i].frames)
    decreases |turns|
  {
    hide SendAll, ReceiveAll, AllFramed, Bodies;
    if turns != [] {
      StreamRoundTrip(link, turns[0].frames, []);
      var said := SendAll(link, turns[0].frames).value;
      assert said.0 + [] == said.0;
      HalfDuplexRoundTrip(said.1, turns[1..]);
    }
  }
}
