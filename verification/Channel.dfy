/** The sequence-numbered authenticated channel between two paired peers, over a network that may
    reorder, drop, duplicate, reflect or forge frames. */
module Channel {
  import opened Base
  import opened Protocol
  import opened Wire

  /** What the channel needs of cryptography and serialisation. Nothing is assumed of key
      derivation; decoding is assumed to invert encoding only where a lemma says so. */
  datatype Primitives = Primitives(
    derive: (seq<byte>, seq<byte>) -> seq<byte>,
    toJson: Message -> seq<byte>,
    fromJson: seq<byte> -> Option<Message>)

  ghost predicate Faithful(prim: Primitives) {
    forall m: Message :: prim.fromJson(prim.toJson(m)) == Some(m)
  }

  /** One authenticated encryption: its key, nonce, associated data and ciphertext. */
  datatype Slot = Slot(key: seq<byte>, nonce: seq<byte>, aad: seq<byte>, ciphertext: seq<byte>)

  /** An ideal cipher's memory: decryption succeeds exactly on what was encrypted. */
  type Table = map<Slot, seq<byte>>

  datatype EncryptedFrame = EncryptedFrame(
    version: nat, sender: string, recipient: string, sequence: nat, ciphertext: seq<byte>)

  datatype Chan = Chan(
    local: string, peer: string, sendKey: seq<byte>, receiveKey: seq<byte>, nextSend: nat, nextReceive: nat)

  /** PairedPeer::new followed by SecurePeerChannel::new. */
  function NewChannel(prim: Primitives, local: string, peer: string, secret: seq<byte>): Result<Chan, ChannelError> {
    if IsBlank(peer) || IsBlank(local) then Err(EmptyPeerId)
    else if local == peer then Err(SamePeer)
    else
      Ok(Chan(local, peer, prim.derive(KeyInfo(local, peer), secret), prim.derive(KeyInfo(peer, local), secret), 0, 0))
  }

  function SealSlot(ch: Chan, ciphertext: seq<byte>): Slot {
    Slot(ch.sendKey, Nonce(ch.nextSend), AssociatedData(VERSION, ch.local, ch.peer, ch.nextSend), ciphertext)
  }

  datatype SealResult = SealResult(ch: Chan, table: Table, frame: Result<EncryptedFrame, ChannelError>)

  /** `ciphertext` is what the cipher happens to produce. */
  function SealStep(prim: Primitives, table: Table, ch: Chan, m: Message, ciphertext: seq<byte>): SealResult {
    match Defect(m)
    case Some(e) => SealResult(ch, table, Err(e))
    case None =>
      if ch.nextSend + 1 >= U64_LIMIT then SealResult(ch, table, Err(SequenceExhausted))
      else
        SealResult(ch.(nextSend := ch.nextSend + 1),
                   table[SealSlot(ch, ciphertext) := prim.toJson(m)],
                   Ok(EncryptedFrame(VERSION, ch.local, ch.peer, ch.nextSend, ciphertext)))
  }

  function OpenSlot(ch: Chan, f: EncryptedFrame): Slot {
    Slot(ch.receiveKey, Nonce(f.sequence), AssociatedData(f.version, f.sender, f.recipient, f.sequence), f.ciphertext)
  }

  function OpenStep(prim: Primitives, table: Table, ch: Chan, f: EncryptedFrame)
    : (Chan, Result<Message, ChannelError>)
  {
    if f.version != VERSION then (ch, Err(UnsupportedVersion(f.version)))
    else if f.sender != ch.peer || f.recipient != ch.local then (ch, Err(WrongPeer))
    else if f.sequence != ch.nextReceive then (ch, Err(UnexpectedSequence(ch.nextReceive, f.sequence)))
    else if OpenSlot(ch, f) !in table then (ch, Err(AuthenticationFailed))
    else match prim.fromJson(table[OpenSlot(ch, f)])
      case None => (ch, Err(Serialization))
      case Some(m) =>
        match Defect(m)
        case Some(e) => (ch, Err(e))
        case None =>
          if ch.nextReceive + 1 >= U64_LIMIT then (ch, Err(SequenceExhausted))
          else (ch.(nextReceive := ch.nextReceive + 1), Ok(m))
  }

  // ---------- the channel as an object ----------

  /** The cipher shared by whoever holds its keys. */
  class Cipher {
    var table: Table

    constructor ()
      ensures table == map[]
    {
      table := map[];
    }
  }

  class SecurePeerChannel {
    const prim: Primitives
    const cipher: Cipher
    const local: string
    const peer: string
    const sendKey: seq<byte>
    const receiveKey: seq<byte>
    var nextSend: nat
    var nextReceive: nat

    function State(): Chan
      reads this
    {
      Chan(local, peer, sendKey, receiveKey, nextSend, nextReceive)
    }

    constructor (prim: Primitives, cipher: Cipher, local: string, peer: string, secret: seq<byte>)
      requires NewChannel(prim, local, peer, secret).Ok?
      ensures this.prim == prim && this.cipher == cipher && NewChannel(prim, local, peer, secret) == Ok(State())
    {
      this.prim, this.cipher, this.local, this.peer := prim, cipher, local, peer;
      sendKey := prim.derive(KeyInfo(local, peer), secret);
      receiveKey := prim.derive(KeyInfo(peer, local), secret);
      nextSend, nextReceive := 0, 0;
    }

    /** Refuses blank identifiers and a channel to oneself. */
    static method Create(prim: Primitives, cipher: Cipher, local: string, peer: string, secret: seq<byte>)
      returns (channel: SecurePeerChannel?, r: Result<(), ChannelError>)
      ensures match NewChannel(prim, local, peer, secret)
              case Err(e) => channel == null && r == Err(e)
              case Ok(state) => r == Ok(()) && channel != null && fresh(channel) && channel.State() == state
    {
      if IsBlank(peer) || IsBlank(local) {
        return null, Err(EmptyPeerId);
      }
      if local == peer {
        return null, Err(SamePeer);
      }
      channel := new SecurePeerChannel(prim, cipher, local, peer, secret);
      r := Ok(());
    }

    method Seal(m: Message, ciphertext: seq<byte>) returns (r: Result<EncryptedFrame, ChannelError>)
      modifies this`nextSend, cipher
      ensures SealResult(State(), cipher.table, r) == SealStep(prim, old(cipher.table), old(State()), m, ciphertext)
    {
      hide Defect, AssociatedData, Nonce;
      var defect := Defect(m);
      if defect.Some? {
        return Err(defect.value);
      }
      var sequence := nextSend;
      if nextSend + 1 >= U64_LIMIT {
        return Err(SequenceExhausted);
      }
      var slot := SealSlot(State(), ciphertext);
      nextSend := nextSend + 1;
      cipher.table := cipher.table[slot := prim.toJson(m)];
      return Ok(EncryptedFrame(VERSION, local, peer, sequence, ciphertext));
    }

    method Open(f: EncryptedFrame) returns (r: Result<Message, ChannelError>)
      modifies this`nextReceive
      ensures (State(), r) == OpenStep(prim, cipher.table, old(State()), f)
      ensures r.Err? ==> State() == old(State())
    {
      hide Defect, AssociatedData, Nonce;
      if f.version != VERSION {
        return Err(UnsupportedVersion(f.version));
      }
      if f.sender != peer || f.recipient != local {
        return Err(WrongPeer);
      }
      if f.sequence != nextReceive {
        return Err(UnexpectedSequence(nextReceive, f.sequence));
      }
      var slot := OpenSlot(State(), f);
      if slot !in cipher.table {
        return Err(AuthenticationFailed);
      }
      var decoded := prim.fromJson(cipher.table[slot]);
      if decoded.None? {
        return Err(Serialization);
      }
      var defect := Defect(decoded.value);
      if defect.Some? {
        return Err(defect.value);
      }
      if nextReceive + 1 >= U64_LIMIT {
        return Err(SequenceExhausted);
      }
      nextReceive := nextReceive + 1;
      return Ok(decoded.value);
    }
  }

  // ---------- two channels and the network between them ----------

  /** Both ends, the cipher, and what each end has sealed and received so far. */
  datatype Net = Net(table: Table, a: Chan, b: Chan,
                     sealedA: seq<Message>, openedB: seq<Message>, sealedB: seq<Message>, openedA: seq<Message>)

  /** The network may hand any frame to either end at any time, and others may use the cipher. */
  datatype Action =
    | SealAtA(m: Message, ciphertext: seq<byte>)
    | SealAtB(m: Message, ciphertext: seq<byte>)
    | DeliverToA(frame: EncryptedFrame)
    | DeliverToB(frame: EncryptedFrame)
    | Elsewhere(version: nat, sender: string, recipient: string, sequence: nat, key: seq<byte>, ciphertext: seq<byte>,
                plaintext: seq<byte>)

  /** An encryption by some other channel: other peers, or another protocol version. */
  predicate Foreign(net: Net, x: Action)
    requires x.Elsewhere?
  {
    && x.version < 0x1_0000_0000 && x.sequence < U64_LIMIT && ShortId(x.sender) && ShortId(x.recipient)
    && !(x.version == VERSION && x.sender == net.a.local && x.recipient == net.b.local)
    && !(x.version == VERSION && x.sender == net.b.local && x.recipient == net.a.local)
  }

  function Act(prim: Primitives, net: Net, x: Action): Net {
    match x
    case SealAtA(m, ciphertext) =>
      var r := SealStep(prim, net.table, net.a, m, ciphertext);
      net.(a := r.ch, table := r.table, sealedA := if r.frame.Ok? then net.sealedA + [m] else net.sealedA)
    case SealAtB(m, ciphertext) =>
      var r := SealStep(prim, net.table, net.b, m, ciphertext);
      net.(b := r.ch, table := r.table, sealedB := if r.frame.Ok? then net.sealedB + [m] else net.sealedB)
    case DeliverToA(frame) =>
      var (ch, r) := OpenStep(prim, net.table, net.a, frame);
      net.(a := ch, openedA := if r.Ok? then net.openedA + [r.value] else net.openedA)
    case DeliverToB(frame) =>
      var (ch, r) := OpenStep(prim, net.table, net.b, frame);
      net.(b := ch, openedB := if r.Ok? then net.openedB + [r.value] else net.openedB)
    case Elsewhere(version, sender, recipient, sequence, key, ciphertext, plaintext) =>
      if Foreign(net, x) then
        net.(table := net.table[Slot(key, Nonce(sequence), AssociatedData(version, sender, recipient, sequence),
                                     ciphertext)
                                := plaintext])
      else net
  }

  function ActAll(prim: Primitives, net: Net, xs: seq<Action>): Net
    decreases |xs|
  {
    if xs == [] then net else ActAll(prim, Act(prim, net, xs[0]), xs[1..])
  }

  /** Everything encrypted under this direction's associated data is what was sealed there, at its
      sequence number. */
  ghost predicate Bound(prim: Primitives, table: Table, from: string, to: string, sealed: seq<Message>) {
    forall slot, q: nat :: slot in table && q < U64_LIMIT && slot.aad == AssociatedData(VERSION, from, to, q) ==>
      q < |sealed| && table[slot] == prim.toJson(sealed[q])
  }

  ghost predicate OneWay(prim: Primitives, table: Table, from: Chan, to: Chan, sealed: seq<Message>,
                         received: seq<Message>) {
    && from.local == to.peer && from.peer == to.local && from.local != from.peer
    && ShortId(from.local) && ShortId(from.peer)
    && |sealed| == from.nextSend < U64_LIMIT
    && Bound(prim, table, from.local, from.peer, sealed)
    && to.nextReceive <= |sealed| && received == sealed[..to.nextReceive]
    && (forall m :: m in sealed ==> Defect(m) == None)
  }

  ghost predicate Sound(prim: Primitives, net: Net) {
    && OneWay(prim, net.table, net.a, net.b, net.sealedA, net.openedB)
    && OneWay(prim, net.table, net.b, net.a, net.sealedB, net.openedA)
  }

  lemma SealKeeps(prim: Primitives, table: Table, from: Chan, to: Chan, sealed: seq<Message>, received: seq<Message>,
                  m: Message, ciphertext: seq<byte>)
    requires OneWay(prim, table, from, to, sealed, received)
    ensures var r := SealStep(prim, table, from, m, ciphertext);
            OneWay(prim, r.table, r.ch, to, if r.frame.Ok? then sealed + [m] else sealed, received)
  {
    hide AssociatedData, Nonce, Defect;
    var r := SealStep(prim, table, from, m, ciphertext);
    if r.frame.Ok? {
      var sealed' := sealed + [m];
      forall slot, q: nat | slot in r.table && q < U64_LIMIT && slot.aad
          == AssociatedData(VERSION, from.local, from.peer, q)
        ensures q < |sealed'| && r.table[slot] == prim.toJson(sealed'[q])
      {
        if slot == SealSlot(from, ciphertext) {
          AssociatedDataInjective(VERSION, from.local, from.peer, q, VERSION, from.local, from.peer, from.nextSend);
        }
      }
      assert sealed'[..to.nextReceive] == sealed[..to.nextReceive];
    }
  }

  /** An encryption whose associated data belongs elsewhere leaves a direction as it was. */
  lemma UnrelatedKeeps(prim: Primitives, table: Table, from: Chan, to: Chan, sealed: seq<Message>,
                       received: seq<Message>,
                       slot: Slot, plaintext: seq<byte>, version: nat, sender: string, recipient: string, sequence: nat)
    requires OneWay(prim, table, from, to, sealed, received)
    requires slot.aad == AssociatedData(version, sender, recipient, sequence)
    requires version < 0x1_0000_0000 && sequence < U64_LIMIT && ShortId(sender) && ShortId(recipient)
    requires !(version == VERSION && sender == from.local && recipient == from.peer)
    ensures OneWay(prim, table[slot := plaintext], from, to, sealed, received)
  {
    hide AssociatedData;
    forall s, q: nat | s in table[slot := plaintext] && q < U64_LIMIT
                       && s.aad == AssociatedData(VERSION, from.local, from.peer, q)
      ensures q < |sealed| && table[slot := plaintext][s] == prim.toJson(sealed[q])
    {
      if s == slot {
        AssociatedDataInjective(version, sender, recipient, sequence, VERSION, from.local, from.peer, q);
      }
    }
  }

  lemma DefectsAreNotExhaustion()
    ensures forall m :: Defect(m) != Some(SequenceExhausted)
  {
  }

  /** Whatever frame arrives, an accepted one is the next message sealed at the other end. */
  lemma OpenKeeps(prim: Primitives, table: Table, from: Chan, to: Chan, sealed: seq<Message>, received: seq<Message>,
                  f: EncryptedFrame)
    requires Faithful(prim) && OneWay(prim, table, from, to, sealed, received)
    ensures var (ch, r) := OpenStep(prim, table, to, f);
            && OneWay(prim, table, from, ch, sealed, if r.Ok? then received + [r.value] else received)
            && (r.Err? ==> ch == to)
            && (r.Ok? ==> f.sequence == to.nextReceive < |sealed| && r.value == sealed[to.nextReceive])
            && r != Err(SequenceExhausted)
  {
    hide AssociatedData, Nonce, Defect;
    var (ch, r) := OpenStep(prim, table, to, f);
    var slot := OpenSlot(to, f);
    DefectsAreNotExhaustion();
    if f.version == VERSION && f.sender == to.peer && f.recipient == to.local && f.sequence == to.nextReceive
       && slot in table
    {
      assert slot.aad == AssociatedData(VERSION, from.local, from.peer, f.sequence);
      assert table[slot] == prim.toJson(sealed[f.sequence]);
      if r.Ok? {
        assert sealed[..to.nextReceive] + [sealed[to.nextReceive]] == sealed[..to.nextReceive + 1];
      }
    }
  }

  lemma ActKeeps(prim: Primitives, net: Net, x: Action)
    requires Faithful(prim) && Sound(prim, net)
    ensures Sound(prim, Act(prim, net, x))
  {
    hide AssociatedData, Nonce, Defect, Faithful, Bound;
    var a, b := net.a, net.b;
    match x
    case SealAtA(m, ciphertext) =>
      SealKeeps(prim, net.table, a, b, net.sealedA, net.openedB, m, ciphertext);
      UnrelatedKeeps(prim, net.table, b, a, net.sealedB, net.openedA, SealSlot(a, ciphertext), prim.toJson(m),
                     VERSION, a.local, a.peer, a.nextSend);
    case SealAtB(m, ciphertext) =>
      SealKeeps(prim, net.table, b, a, net.sealedB, net.openedA, m, ciphertext);
      UnrelatedKeeps(prim, net.table, a, b, net.sealedA, net.openedB, SealSlot(b, ciphertext), prim.toJson(m),
                     VERSION, b.local, b.peer, b.nextSend);
    case DeliverToA(frame) => OpenKeeps(prim, net.table, b, a, net.sealedB, net.openedA, frame);
    case DeliverToB(frame) => OpenKeeps(prim, net.table, a, b, net.sealedA, net.openedB, frame);
    case Elsewhere(version, sender, recipient, sequence, key, ciphertext, plaintext) =>
      if Foreign(net, x) {
        var slot := Slot(key, Nonce(sequence), AssociatedData(version, sender, recipient, sequence), ciphertext);
        UnrelatedKeeps(prim, net.table, a, b, net.sealedA, net.openedB, slot, plaintext, version, sender, recipient,
                       sequence);
        UnrelatedKeeps(prim, net.table, b, a, net.sealedB, net.openedA, slot, plaintext, version, sender, recipient,
                       sequence);
      }
  }

  lemma {:induction false} ActAllKeeps(prim: Primitives, net: Net, xs: seq<Action>)
    requires Faithful(prim) && Sound(prim, net)
    ensures Sound(prim, ActAll(prim, net, xs))
    decreases |xs|
  {
    if xs != [] {
      ActKeeps(prim, net, xs[0]);
      ActAllKeeps(prim, Act(prim, net, xs[0]), xs[1..]);
    }
  }

  predicate ShortIds(a: string, b: string) { ShortId(a) && ShortId(b) }

  /** No encryption under this pair's associated data exists yet. */
  ghost predicate Unused(table: Table, a: string, b: string) {
    forall slot, q: nat :: slot in table && q < U64_LIMIT ==>
      slot.aad != AssociatedData(VERSION, a, b, q) && slot.aad != AssociatedData(VERSION, b, a, q)
  }

  function Connected(prim: Primitives, table: Table, a: string, b: string, secret: seq<byte>): Net
    requires NewChannel(prim, a, b, secret).Ok? && NewChannel(prim, b, a, secret).Ok?
  {
    Net(table, NewChannel(prim, a, b, secret).value, NewChannel(prim, b, a, secret).value, [], [], [], [])
  }

  /** Over any behaviour of the network, what each end has opened is a prefix of what the other end
      has sealed: nothing forged, repeated, reordered, reflected or skipped is ever returned. */
  lemma OpenedIsPrefixOfSealed(prim: Primitives, table: Table, a: string, b: string, secret: seq<byte>, xs: seq<Action>)
    requires Faithful(prim) && ShortIds(a, b) && Unused(table, a, b)
    requires NewChannel(prim, a, b, secret).Ok? && NewChannel(prim, b, a, secret).Ok?
    ensures var net := ActAll(prim, Connected(prim, table, a, b, secret), xs);
            && net.openedB <= net.sealedA && net.openedA <= net.sealedB
            && (forall m :: m in net.sealedA || m in net.sealedB ==> Defect(m) == None)
  {
    hide AssociatedData, Faithful;
    var net := Connected(prim, table, a, b, secret);
    assert Sound(prim, net);
    ActAllKeeps(prim, net, xs);
  }

  /** Exactly what sealing does: a valid message is sealed while the counter is below 2^64 - 1, under the
      counter's number, which moves on; anything else is refused for its defect or for the counter, and
      changes nothing. */
  lemma SealExactly(prim: Primitives, table: Table, ch: Chan, m: Message, ciphertext: seq<byte>)
    ensures var r := SealStep(prim, table, ch, m, ciphertext);
            if Defect(m) == None && ch.nextSend < 0xFFFF_FFFF_FFFF_FFFF then
              && r.frame == Ok(EncryptedFrame(1, ch.local, ch.peer, ch.nextSend, ciphertext))
              && r.ch == ch.(nextSend := ch.nextSend + 1)
              && r.table == table[Slot(ch.sendKey, Nonce(ch.nextSend),
                                       AssociatedData(1, ch.local, ch.peer, ch.nextSend), ciphertext) := prim.toJson(m)]
            else
              && r.frame == Err(if Defect(m) == None then SequenceExhausted else Defect(m).value)
              && r.ch == ch && r.table == table
  {
    hide AssociatedData, Nonce, Defect;
  }

  /** Exactly what opening does: the frame must be of version 1, from this peer to this end, next in order,
      in the cipher's memory and a valid message in it, below the last number; the first of these that
      fails is the error, and only an opened frame moves the counter. */
  lemma OpenExactly(prim: Primitives, table: Table, ch: Chan, f: EncryptedFrame)
    ensures var (ch', r) := OpenStep(prim, table, ch, f);
            var slot := Slot(ch.receiveKey, Nonce(ch.nextReceive), AssociatedData(1, ch.peer, ch.local, ch.nextReceive),
                             f.ciphertext);
            var addressed := f.version == 1 && f.sender == ch.peer && f.recipient == ch.local;
            var next := addressed && f.sequence == ch.nextReceive;
            && (r.Ok? <==> && next && slot in table && prim.fromJson(table[slot]).Some?
                           && Defect(prim.fromJson(table[slot]).value) == None
                           && ch.nextReceive < 0xFFFF_FFFF_FFFF_FFFF)
            && (r.Ok? ==>
                  ch' == ch.(nextReceive := ch.nextReceive + 1) && Some(r.value) == prim.fromJson(table[slot]))
            && (r.Err? ==> ch' == ch)
            && (f.version != 1 <==> r == Err(UnsupportedVersion(f.version)) && !addressed)
            && (r == Err(WrongPeer) <==> f.version == 1 && !addressed)
            && (addressed && !next ==> r == Err(UnexpectedSequence(ch.nextReceive, f.sequence)))
            && (next && slot !in table ==> r == Err(AuthenticationFailed))
            && (next && slot in table ==>
                  match prim.fromJson(table[slot])
                  case None => r == Err(Serialization)
                  case Some(m) => r.Err? ==> r.error == if Defect(m) == None then SequenceExhausted
                      else Defect(m).value)
  {
    hide AssociatedData, Nonce, Defect;
    NeverOtherwise();
  }

  /** No message is found invalid for a reason that concerns its frame. */
  lemma NeverOtherwise()
    ensures forall m :: Defect(m) != Some(WrongPeer)
  {
  }

  /** A channel is refused exactly for a blank identifier or one shared by both ends; otherwise it starts
      at zero both ways, under one key per direction that the other end derives alike. */
  lemma NewExactly(prim: Primitives, local: string, peer: string, secret: seq<byte>)
    ensures var r := NewChannel(prim, local, peer, secret);
            && (r.Ok? <==> Filled(local) && Filled(peer) && local != peer)
            && (r.Err? ==> r.error == if Filled(local) && Filled(peer) then SamePeer else EmptyPeerId)
            && (r.Ok? ==>
                  && NewChannel(prim, peer, local, secret).Ok?
                  && var far := NewChannel(prim, peer, local, secret).value;
                     && r.value == Chan(local, peer, prim.derive(KeyInfo(local, peer), secret), far.sendKey, 0, 0)
                     && far.receiveKey == r.value.sendKey)
  {
    hide KeyInfo, IsSpace;
  }

  /** The next frame in order is accepted and yields the message that was sealed. */
  lemma SealThenOpen(prim: Primitives, table: Table, from: Chan, to: Chan, m: Message, ciphertext: seq<byte>)
    requires Faithful(prim) && from.local == to.peer && from.peer == to.local && from.sendKey == to.receiveKey
    requires from.nextSend == to.nextReceive < 0xFFFF_FFFF_FFFF_FFFF && Defect(m) == None
    ensures var r := SealStep(prim, table, from, m, ciphertext);
            && r.frame.Ok?
            && OpenStep(prim, r.table, to, r.frame.value) == (to.(nextReceive := to.nextReceive + 1), Ok(m))
  {
    hide Defect, AssociatedData, Nonce;
    var r := SealStep(prim, table, from, m, ciphertext);
    SealExactly(prim, table, from, m, ciphertext);
    assert OpenSlot(to, r.frame.value) == SealSlot(from, ciphertext);
  }

  /** The valid messages an end is asked to seal over a run, in order. */
  function Offered(xs: seq<Action>, atA: bool): seq<Message> {
    if xs == [] then []
    else
      (match xs[0]
       case SealAtA(m, _) => if atA && Defect(m) == None then [m] else []
       case SealAtB(m, _) => if !atA && Defect(m) == None then [m] else []
       case _ => [])
      + Offered(xs[1..], atA)
  }

  function SealedAt(net: Net, atA: bool): seq<Message> { if atA then net.sealedA else net.sealedB }

  function Upto(ms: seq<Message>, n: nat): seq<Message> { if n < |ms| then ms[..n] else ms }

  lemma SealedByOne(prim: Primitives, net: Net, x: Action, atA: bool)
    requires End(net, atA).nextSend < U64_LIMIT
    ensures var room := 0xFFFF_FFFF_FFFF_FFFF - End(net, atA).nextSend;
            var net', one := Act(prim, net, x), Upto(Offered([x], atA), room);
            && SealedAt(net', atA) == SealedAt(net, atA) + one
            && End(net', atA).nextSend == End(net, atA).nextSend + |one|
  {
    hide AssociatedData, Nonce, Defect, Foreign, OpenStep;
    assert [x][1..] == [] && Offered([], atA) == [];
    var step := Offered([x], atA);
    assert SealedAt(net, atA) + [] == SealedAt(net, atA);
    assert |step| <= 1;
    OpenLeavesSend(prim, net, x);
  }

  lemma OpenLeavesSend(prim: Primitives, net: Net, x: Action)
    ensures x.DeliverToA? || x.DeliverToB? || x.Elsewhere? ==>
              var net' := Act(prim, net, x);
              && net'.a.nextSend == net.a.nextSend && net'.b.nextSend == net.b.nextSend
              && net'.sealedA == net.sealedA && net'.sealedB == net.sealedB
  {
    hide AssociatedData, Nonce, Defect, Foreign;
  }

  /** What an end has sealed over any run is exactly the valid messages it was asked to seal, up to the
      last sequence number. */
  lemma {:induction false} SealedIsOffered(prim: Primitives, net: Net, xs: seq<Action>, atA: bool)
    requires End(net, atA).nextSend < U64_LIMIT
    ensures var room := 0xFFFF_FFFF_FFFF_FFFF - End(net, atA).nextSend;
            SealedAt(ActAll(prim, net, xs), atA) == SealedAt(net, atA) + Upto(Offered(xs, atA), room)
    decreases |xs|
  {
    hide Act, Defect;
    if xs == [] {
      assert SealedAt(net, atA) + [] == SealedAt(net, atA);
    } else {
      hide SealedAt, Upto, Offered;
      var net1 := Act(prim, net, xs[0]);
      var one, more := Offered([xs[0]], atA), Offered(xs[1..], atA);
      var room := 0xFFFF_FFFF_FFFF_FFFF - End(net, atA).nextSend;
      OfferedFirst(xs, atA);
      SealedByOne(prim, net, xs[0], atA);
      SealedIsOffered(prim, net1, xs[1..], atA);
      UptoJoins(SealedAt(net, atA), one, more, room);
    }
  }

  lemma OfferedFirst(xs: seq<Action>, atA: bool)
    requires xs != []
    ensures Offered(xs, atA) == Offered([xs[0]], atA) + Offered(xs[1..], atA)
  {
    hide Defect;
    assert [xs[0]][1..] == [] && Offered([], atA) == [];
  }

  lemma UptoJoins(before: seq<Message>, one: seq<Message>, more: seq<Message>, room: nat)
    ensures |Upto(one, room)| <= room
    ensures before + Upto(one + more, room) == before + Upto(one, room) + Upto(more, room - |Upto(one, room)|)
  {
    var rest: nat := room - |Upto(one, room)|;
    assert Upto(one + more, room) == Upto(one, room) + Upto(more, rest);
  }

  // ---------- the frames one channel seals over a whole run ----------

  /** The frame an action seals at one end, if it does. */
  function FrameOf(prim: Primitives, net: Net, x: Action, atA: bool): seq<EncryptedFrame> {
    match x
    case SealAtA(m, ciphertext) =>
      var r := SealStep(prim, net.table, net.a, m, ciphertext).frame;
      if atA && r.Ok? then [r.value] else []
    case SealAtB(m, ciphertext) =>
      var r := SealStep(prim, net.table, net.b, m, ciphertext).frame;
      if !atA && r.Ok? then [r.value] else []
    case _ => []
  }

  function FramesOf(prim: Primitives, net: Net, xs: seq<Action>, atA: bool): seq<EncryptedFrame>
    decreases |xs|
  {
    if xs == [] then [] else FrameOf(prim, net, xs[0], atA) + FramesOf(prim, Act(prim, net, xs[0]), xs[1..], atA)
  }

  function End(net: Net, atA: bool): Chan { if atA then net.a else net.b }

  /** A frame as one end seals it, with its encryption in the cipher's memory. */
  predicate SealedAs(table: Table, ch: Chan, f: EncryptedFrame, sequence: nat) {
    && f == EncryptedFrame(VERSION, ch.local, ch.peer, sequence, f.ciphertext)
    && Slot(ch.sendKey, Nonce(sequence), AssociatedData(VERSION, ch.local, ch.peer, sequence), f.ciphertext) in table
  }

  /** One action: the end's identity stays, the cipher forgets nothing, and a sealed frame takes
      exactly the end's next number. */
  lemma FrameStep(prim: Primitives, net: Net, x: Action, atA: bool)
    ensures var ch, net' := End(net, atA), Act(prim, net, x);
            var ch', frames := End(net', atA), FrameOf(prim, net, x, atA);
            && ch' == ch.(nextSend := ch.nextSend + |frames|, nextReceive := ch'.nextReceive)
            && net.table.Keys <= net'.table.Keys
            && (frames != [] ==>
                  |frames| == 1 && ch.nextSend + 1 < U64_LIMIT && SealedAs(net'.table, ch, frames[0], ch.nextSend))
  {
    hide AssociatedData, Nonce, Defect, Foreign;
  }

  /** The frames sealed at one end over any run are numbered from its counter without gap or
      repetition, and each stays decryptable. */
  lemma {:induction false} FramesAreNumbered(prim: Primitives, net: Net, xs: seq<Action>, atA: bool)
    ensures var ch, net', frames := End(net, atA), ActAll(prim, net, xs), FramesOf(prim, net, xs, atA);
            && End(net', atA) == ch.(nextSend := ch.nextSend + |frames|, nextReceive := End(net', atA).nextReceive)
            && net.table.Keys <= net'.table.Keys
            && (frames != [] ==> ch.nextSend + |frames| < U64_LIMIT)
            && forall i :: 0 <= i < |frames| ==> SealedAs(net'.table, ch, frames[i], ch.nextSend + i)
    decreases |xs|
  {
    hide Act, FrameOf, AssociatedData, Nonce;
    if xs != [] {
      var one, net1 := FrameOf(prim, net, xs[0], atA), Act(prim, net, xs[0]);
      FrameStep(prim, net, xs[0], atA);
      FramesAreNumbered(prim, net1, xs[1..], atA);
      var rest := FramesOf(prim, net1, xs[1..], atA);
      var frames := FramesOf(prim, net, xs, atA);
      forall i | 0 <= i < |frames|
        ensures SealedAs(ActAll(prim, net, xs).table, End(net, atA), frames[i], End(net, atA).nextSend + i)
      {
        assert i >= |one| ==> frames[i] == rest[i - |one|];
      }
    }
  }

  /** No two frames one channel seals over any run share a sequence number or a nonce. */
  lemma SealedFramesAreDistinct(prim: Primitives, net: Net, xs: seq<Action>, atA: bool, i: nat, j: nat)
    requires i < j < |FramesOf(prim, net, xs, atA)|
    ensures var frames := FramesOf(prim, net, xs, atA);
            frames[i].sequence < frames[j].sequence && Nonce(frames[i].sequence) != Nonce(frames[j].sequence)
  {
    hide FramesOf, Nonce, AssociatedData, ActAll;
    FramesAreNumbered(prim, net, xs, atA);
    var frames := FramesOf(prim, net, xs, atA);
    var first := End(net, atA).nextSend;
    assert frames[i].sequence == first + i && frames[j].sequence == first + j;
    if Nonce(first + i) == Nonce(first + j) {
      NonceInjective(first + i, first + j);
    }
  }

  /** Both ends of a pairing derive matching keys from the same secret. */
  lemma KeysAgree(prim: Primitives, a: string, b: string, secret: seq<byte>)
    requires NewChannel(prim, a, b, secret).Ok?
    ensures NewChannel(prim, b, a, secret).Ok?
    ensures var x, y := NewChannel(prim, a, b, secret).value, NewChannel(prim, b, a, secret).value;
            x.sendKey == y.receiveKey && x.receiveKey == y.sendKey
  {
  }

  /** Handing frames to the far end, one after the other. */
  function Deliveries(frames: seq<EncryptedFrame>): (xs: seq<Action>)
    ensures |xs| == |frames|
  {
    seq(|frames|, i requires 0 <= i < |frames| => DeliverToB(frames[i]))
  }

  /** A frame sealed at this number opens when its turn comes. */
  lemma OpensInTurn(prim: Primitives, table: Table, from: Chan, to: Chan, sealed: seq<Message>, received: seq<Message>,
                    f: EncryptedFrame)
    requires Faithful(prim) && OneWay(prim, table, from, to, sealed, received) && from.sendKey == to.receiveKey
    requires to.nextReceive < |sealed| && SealedAs(table, from, f, to.nextReceive)
    ensures OpenStep(prim, table, to, f) == (to.(nextReceive := to.nextReceive + 1), Ok(sealed[to.nextReceive]))
  {
    hide AssociatedData, Nonce, Defect;
    var slot := OpenSlot(to, f);
    assert slot.aad == AssociatedData(VERSION, from.local, from.peer, to.nextReceive) && slot in table;
    assert table[slot] == prim.toJson(sealed[to.nextReceive]);
    assert sealed[to.nextReceive] in sealed;
  }

  lemma {:induction false} PendingOpen(prim: Primitives, net: Net, frames: seq<EncryptedFrame>)
    requires Faithful(prim) && Sound(prim, net) && net.a.sendKey == net.b.receiveKey
    requires |frames| == |net.sealedA| - net.b.nextReceive
    requires forall i :: 0 <= i < |frames| ==> SealedAs(net.table, net.a, frames[i], net.b.nextReceive + i)
    ensures ActAll(prim, net, Deliveries(frames)).openedB == net.sealedA
    decreases |frames|
  {
    hide Faithful, Bound, SealedAs, OpenStep;
    var n := net.b.nextReceive;
    if frames == [] {
      assert net.sealedA[..n] == net.sealedA;
    } else {
      OpensInTurn(prim, net.table, net.a, net.b, net.sealedA, net.openedB, frames[0]);
      var x := DeliverToB(frames[0]);
      ActKeeps(prim, net, x);
      var net' := Act(prim, net, x);
      assert Deliveries(frames)[0] == x && Deliveries(frames)[1..] == Deliveries(frames[1..]);
      PendingOpen(prim, net', frames[1..]);
    }
  }

  /** Nothing sealed is lost for good: after any behaviour of the network, handing over the frames
      not yet opened, in order, makes the far end open everything that was sealed. */
  lemma PendingFramesOpen(prim: Primitives, table: Table, a: string, b: string, secret: seq<byte>, xs: seq<Action>)
    requires Faithful(prim) && ShortIds(a, b) && Unused(table, a, b)
    requires NewChannel(prim, a, b, secret).Ok? && NewChannel(prim, b, a, secret).Ok?
    ensures var start := Connected(prim, table, a, b, secret);
            var net, frames := ActAll(prim, start, xs), FramesOf(prim, start, xs, true);
            && net.b.nextReceive <= |frames| == |net.sealedA|
            && ActAll(prim, net, Deliveries(frames[net.b.nextReceive..])).openedB == net.sealedA
  {
    hide AssociatedData, Faithful, ActAll, FramesOf, SealedAs;
    var start := Connected(prim, table, a, b, secret);
    assert Sound(prim, start);
    ActAllKeeps(prim, start, xs);
    FramesAreNumbered(prim, start, xs, true);
    EndsStay(prim, start, xs);
    KeysAgree(prim, a, b, secret);
    var net, frames := ActAll(prim, start, xs), FramesOf(prim, start, xs, true);
    forall i | 0 <= i < |frames| ensures SealedAs(net.table, net.a, frames[i], i) {
      SameEnd(net.table, start.a, net.a, frames[i], i);
    }
    var pending := frames[net.b.nextReceive..];
    forall i | 0 <= i < |pending| ensures pending[i] == frames[net.b.nextReceive + i] {}
    PendingOpen(prim, net, pending);
  }

  lemma SameEnd(table: Table, ch: Chan, ch': Chan, f: EncryptedFrame, sequence: nat)
    requires ch' == ch.(nextSend := ch'.nextSend, nextReceive := ch'.nextReceive)
    ensures SealedAs(table, ch, f, sequence) == SealedAs(table, ch', f, sequence)
  {
  }

  /** Over any run only the counters of an end change. */
  lemma EndsStay(prim: Primitives, net: Net, xs: seq<Action>)
    ensures var net' := ActAll(prim, net, xs);
            && net'.a == net.a.(nextSend := net'.a.nextSend, nextReceive := net'.a.nextReceive)
            && net'.b == net.b.(nextSend := net'.b.nextSend, nextReceive := net'.b.nextReceive)
  {
    hide SealedAs;
    FramesAreNumbered(prim, net, xs, true);
    FramesAreNumbered(prim, net, xs, false);
  }
}
