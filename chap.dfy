/** The CHAP state machine of pppd (RFC 1994): the client, which answers
    the peer's challenges, and the server, which challenges the peer and
    judges its responses, each keep a word of flags; the server also keeps
    the last challenge packet it built, its identifier and how often it
    has sent it.

    The surroundings are parameters or recorded events: a packet handed to
    output(), a timer armed or cancelled, and the outcome reported to the
    authentication layer are appended to `events`; the challenge value the
    digest generates, the result of checking a response, the response the
    digest makes and the digest's verdict on a Success message are passed
    in. Packets are byte sequences; a packet built for output starts with
    the four-byte PPP header (address 0xff, control 0x03, protocol 0xc223). */
module Chap {

  type Byte = x: int | 0 <= x < 256

  // Codes (RFC 1994, section 4)
  const CHAP_CHALLENGE: Byte := 1
  const CHAP_RESPONSE: Byte := 2
  const CHAP_SUCCESS: Byte := 3
  const CHAP_FAILURE: Byte := 4

  const CHAP_HDRLEN: nat := 4
  const PPP_HDRLEN: nat := 4
  const MAX_CHALLENGE_LEN: nat := 64
  const MAX_RESPONSE_LEN: nat := 64
  const MAXNAMELEN: nat := 256
  const CHAL_MAX_PKTLEN: nat := PPP_HDRLEN + CHAP_HDRLEN + 4 + MAX_CHALLENGE_LEN + MAXNAMELEN

  const PPP_HEADER: seq<Byte> := [0xff, 0x03, 0xc2, 0x23]

  /** The bits of a side's flag word (LOWERUP 1, AUTH_STARTED 2, AUTH_DONE
      4, AUTH_FAILED 8, TIMEOUT_PENDING 0x10, CHALLENGE_VALID 0x20); a flag
      word is the set of bits it has. */
  datatype Flag = LowerUp | AuthStarted | AuthDone | AuthFailed | TimeoutPending | ChallengeValid

  type Flags = set<Flag>

  /** What the state machine does to its surroundings, in order. */
  datatype Event =
    | Output(packet: seq<Byte>)         // output()
    | TimerSet(seconds: int)            // TIMEOUT(chap_timeout, ...)
    | TimerCancelled                    // UNTIMEOUT(chap_timeout, ...)
    | PeerFail                          // auth_peer_fail
    | PeerSuccess(name: seq<Byte>)      // auth_peer_success
    | WithPeerSuccess                   // auth_withpeer_success
    | WithPeerFail                      // auth_withpeer_fail

  /** The option-controlled globals: chap-max-challenge, chap-restart,
      chap-interval, and the remote name given on the command line. */
  datatype Config = Config(maxTransmits: int, timeoutTime: int, rechallengeTime: int,
                           explicitRemote: bool, remoteName: seq<Byte>)

  /** The client and server state as values. */
  datatype St = St(cflags: Flags, cname: seq<Byte>,
                   sflags: Flags, sid: nat, sname: seq<Byte>, xmits: int, pktlen: nat,
                   challenge: seq<Byte>, message: seq<Byte>, events: seq<Event>)

  /** The sizes the buffers allow: the challenge buffer has its fixed size
      and holds the last packet built, names fit MAXNAMELEN, the message
      fits its 256-byte buffer. */
  predicate StValid(s: St)
  {
    |s.challenge| == CHAL_MAX_PKTLEN && s.pktlen <= CHAL_MAX_PKTLEN
    && |s.sname| <= MAXNAMELEN && |s.cname| <= MAXNAMELEN && |s.message| < 256
  }

  /** `bytes` written over `buf` from position `at`. */
  function Overwrite(buf: seq<Byte>, at: nat, bytes: seq<Byte>): (r: seq<Byte>)
    requires at + |bytes| <= |buf|
    ensures |r| == |buf|
    ensures forall k | 0 <= k < |buf| :: r[k] == if at <= k < at + |bytes| then bytes[k - at] else buf[k]
  {
    buf[..at] + bytes + buf[at + |bytes|..]
  }

  /** The CHAP header: code, identifier and the length in network byte
      order, the length cut to its low 16 bits as the stores do. */
  function ChapHeader(code: Byte, id: Byte, len: nat): (r: seq<Byte>)
    ensures |r| == CHAP_HDRLEN
  {
    [code, id, len / 0x100 % 0x100, len % 0x100]
  }

  /** The length field of a CHAP header. */
  function HeaderLength(pkt: seq<Byte>): nat
    requires |pkt| >= CHAP_HDRLEN
  {
    pkt[2] as int * 0x100 + pkt[3] as int
  }

  /** A length below 2^16 reads back from the header it is written in. */
  lemma ChapHeaderRoundTrip(code: Byte, id: Byte, len: nat)
    requires len < 0x1_0000
    ensures var h := ChapHeader(code, id, len); h[0] == code && h[1] == id && HeaderLength(h) == len
  {
  }

  /** A Challenge or Response packet (RFC 1994, section 4.1): Value-Size,
      Value and Name after the header. */
  function ValuePacket(code: Byte, id: Byte, value: seq<Byte>, name: seq<Byte>): (r: seq<Byte>)
    requires |value| < 256
    ensures |r| == PPP_HDRLEN + CHAP_HDRLEN + 1 + |value| + |name|
  {
    PPP_HEADER + ChapHeader(code, id, CHAP_HDRLEN + 1 + |value| + |name|) + [|value|] + value + name
  }

  /** A Success or Failure packet (RFC 1994, section 4.2): the message
      after the header. */
  function StatusPacket(code: Byte, id: Byte, message: seq<Byte>): (r: seq<Byte>)
    ensures |r| == PPP_HDRLEN + CHAP_HDRLEN + |message|
  {
    PPP_HEADER + ChapHeader(code, id, CHAP_HDRLEN + |message|) + message
  }

  /** chap_input's framing: a packet of at least a header whose length
      field is at least a header and at most the packet, giving the code,
      the identifier and the data up to that length. */
  function Frame(pkt: seq<Byte>): (r: Option<(Byte, Byte, seq<Byte>)>)
    ensures r.Some? <==> |pkt| >= CHAP_HDRLEN && CHAP_HDRLEN <= HeaderLength(pkt) <= |pkt|
    ensures r.Some? ==> r.value == (pkt[0], pkt[1], pkt[CHAP_HDRLEN .. HeaderLength(pkt)])
  {
    if |pkt| < CHAP_HDRLEN then None
    else
      var len := HeaderLength(pkt);
      if len < CHAP_HDRLEN || len > |pkt| then None
      else Some((pkt[0], pkt[1], pkt[CHAP_HDRLEN .. len]))
  }

  datatype Option<T> = None | Some(value: T)

  /** A packet built for output, stripped of its PPP header, is framed by
      chap_input as its code, identifier, Value-Size, Value and Name. */
  lemma ValuePacketFrames(code: Byte, id: Byte, value: seq<Byte>, name: seq<Byte>)
    requires |value| < 256 && CHAP_HDRLEN + 1 + |value| + |name| < 0x1_0000
    ensures var f := Frame(ValuePacket(code, id, value, name)[PPP_HDRLEN..]);
      f.Some? && f.value.0 == code && f.value.1 == id
      && f.value.2 == [|value|] + value + name
  {
    var p := ValuePacket(code, id, value, name)[PPP_HDRLEN..];
    ChapHeaderRoundTrip(code, id, CHAP_HDRLEN + 1 + |value| + |name|);
    assert p == ChapHeader(code, id, CHAP_HDRLEN + 1 + |value| + |name|) + ([|value|] + value + name);
    assert p[..CHAP_HDRLEN] == ChapHeader(code, id, CHAP_HDRLEN + 1 + |value| + |name|);
  }

  /** chap_generate_challenge: the identifier goes up by one and its low
      byte is the packet's identifier; the challenge packet is built at
      the front of the buffer and its length recorded. */
  function GenerateChallengeSpec(s: St, value: seq<Byte>): (r: St)
    requires StValid(s) && |value| <= MAX_CHALLENGE_LEN
    ensures StValid(r)
  {
    var id := s.sid + 1;
    var packet := ValuePacket(CHAP_CHALLENGE, id % 0x100, value, s.sname);
    s.(sid := id, pktlen := |packet|, challenge := Overwrite(s.challenge, 0, packet))
  }

  /** The challenge packet is what the server last built. */
  lemma ChallengeFraming(s: St, value: seq<Byte>)
    requires StValid(s) && |value| <= MAX_CHALLENGE_LEN
    ensures var r := GenerateChallengeSpec(s, value);
      var len := CHAP_HDRLEN + 1 + |value| + |s.sname|;
      r.sid == s.sid + 1 && r.pktlen == PPP_HDRLEN + len
      && r.challenge[PPP_HDRLEN] == CHAP_CHALLENGE
      && r.challenge[PPP_HDRLEN + 1] == (s.sid + 1) % 0x100
      && HeaderLength(r.challenge[PPP_HDRLEN..]) == len
      && r.challenge[..r.pktlen] == ValuePacket(CHAP_CHALLENGE, (s.sid + 1) % 0x100, value, s.sname)
  {
    var r := GenerateChallengeSpec(s, value);
    var id := (s.sid + 1) % 0x100;
    var len := CHAP_HDRLEN + 1 + |value| + |s.sname|;
    var packet := ValuePacket(CHAP_CHALLENGE, id, value, s.sname);
    var h := ChapHeader(CHAP_CHALLENGE, id, len);
    assert r.challenge == packet + s.challenge[|packet|..];
    assert r.challenge[..r.pktlen] == packet;
    assert packet[PPP_HDRLEN..PPP_HDRLEN + CHAP_HDRLEN] == h;
    ChapHeaderRoundTrip(CHAP_CHALLENGE, id, len);
    assert r.challenge[PPP_HDRLEN..][..CHAP_HDRLEN] == h;
  }

  /** Sending the current challenge and arming the retransmission timer. */
  function Transmit(s: St, cfg: Config): (r: St)
    requires StValid(s)
    ensures StValid(r) && TimeoutPending in r.sflags && r.xmits == s.xmits + 1
    ensures r == s.(events := r.events, xmits := r.xmits, sflags := r.sflags)
    ensures r.sflags - {TimeoutPending} == s.sflags - {TimeoutPending}
    ensures r.events == s.events + [Output(s.challenge[..s.pktlen]), TimerSet(cfg.timeoutTime)]
  {
    s.(events := s.events + [Output(s.challenge[..s.pktlen]), TimerSet(cfg.timeoutTime)],
       xmits := s.xmits + 1, sflags := s.sflags + {TimeoutPending})
  }

  /** chap_timeout: the pending mark goes; without a valid challenge a
      fresh one is built and sent; with one that has been sent the maximum
      number of times authentication of the peer fails; otherwise the
      challenge is sent again. */
  function TimeoutSpec(s: St, cfg: Config, value: seq<Byte>): (r: St)
    requires StValid(s) && |value| <= MAX_CHALLENGE_LEN
    ensures StValid(r) && r.cflags == s.cflags && r.cname == s.cname
    ensures TimeoutPending !in r.sflags <==> ChallengeValid in s.sflags && s.xmits >= cfg.maxTransmits
  {
    var s1 := s.(sflags := s.sflags - {TimeoutPending});
    if ChallengeValid !in s1.sflags then
      var s2 := GenerateChallengeSpec(s1.(xmits := 0), value);
      Transmit(s2.(sflags := s2.sflags + {ChallengeValid}), cfg)
    else if s1.xmits >= cfg.maxTransmits then
      s1.(sflags := s1.sflags - {ChallengeValid} + {AuthDone, AuthFailed}, events := s1.events + [PeerFail])
    else Transmit(s1, cfg)
  }

  /** The three outcomes of a timeout. */
  lemma TimeoutCases(s: St, cfg: Config, value: seq<Byte>)
    requires StValid(s) && |value| <= MAX_CHALLENGE_LEN
    ensures var r := TimeoutSpec(s, cfg, value);
      (ChallengeValid !in s.sflags ==>
         r.xmits == 1 && ChallengeValid in r.sflags && r.sid == s.sid + 1
         && r.events == s.events + [Output(r.challenge[..r.pktlen]), TimerSet(cfg.timeoutTime)])
      && (ChallengeValid in s.sflags && s.xmits >= cfg.maxTransmits ==>
         ChallengeValid !in r.sflags && AuthDone in r.sflags && AuthFailed in r.sflags
         && r.events == s.events + [PeerFail] && r.xmits == s.xmits)
      && (ChallengeValid in s.sflags && s.xmits < cfg.maxTransmits ==>
         r.xmits == s.xmits + 1 && r.challenge == s.challenge && r.sid == s.sid
         && r.events == s.events + [Output(s.challenge[..s.pktlen]), TimerSet(cfg.timeoutTime)])
      && r.sflags - {TimeoutPending, ChallengeValid, AuthDone, AuthFailed}
         == s.sflags - {TimeoutPending, ChallengeValid, AuthDone, AuthFailed}
  {
  }

  /** chap_lowerup: both sides see the link up; a server that has started
      authenticating sends its first challenge now. */
  function LowerUpSpec(s: St, cfg: Config, value: seq<Byte>): (r: St)
    requires StValid(s) && |value| <= MAX_CHALLENGE_LEN
    ensures StValid(r) && LowerUp in r.cflags && LowerUp in r.sflags
    ensures AuthStarted !in s.sflags ==> r == s.(cflags := s.cflags + {LowerUp}, sflags := s.sflags + {LowerUp})
    ensures AuthStarted in s.sflags ==>
      r == TimeoutSpec(s.(cflags := s.cflags + {LowerUp}, sflags := s.sflags + {LowerUp}), cfg, value)
  {
    var s1 := s.(cflags := s.cflags + {LowerUp}, sflags := s.sflags + {LowerUp});
    if AuthStarted in s1.sflags then TimeoutSpec(s1, cfg, value) else s1
  }

  /** chap_lowerdown: both flag words are cleared, a pending timer is
      cancelled. */
  function LowerDownSpec(s: St): (r: St)
    requires StValid(s)
    ensures StValid(r) && r.cflags == {} && r.sflags == {}
    ensures r.events == s.events + (if TimeoutPending in s.sflags then [TimerCancelled] else [])
  {
    s.(cflags := {}, sflags := {},
       events := s.events + if TimeoutPending in s.sflags then [TimerCancelled] else [])
  }

  /** chap_auth_peer: ignored once started; otherwise the server takes
      our name and a random identifier byte, starts, and challenges at
      once if the link is up. */
  function AuthPeerSpec(s: St, cfg: Config, name: seq<Byte>, rand: Byte, value: seq<Byte>): (r: St)
    requires StValid(s) && |name| <= MAXNAMELEN && |value| <= MAX_CHALLENGE_LEN
    ensures StValid(r)
  {
    if AuthStarted in s.sflags then s
    else
      var s1 := s.(sname := name, sid := rand, sflags := s.sflags + {AuthStarted});
      if LowerUp in s1.sflags then TimeoutSpec(s1, cfg, value) else s1
  }

  /** A second chap_auth_peer changes nothing; a first one starts the
      server with an identifier below 256 (one more once the first
      challenge has been built). */
  lemma AuthPeerOnce(s: St, cfg: Config, name: seq<Byte>, rand: Byte, value: seq<Byte>)
    requires StValid(s) && |name| <= MAXNAMELEN && |value| <= MAX_CHALLENGE_LEN
    ensures var r := AuthPeerSpec(s, cfg, name, rand, value);
      (AuthStarted in s.sflags ==> r == s)
      && (AuthStarted !in s.sflags ==>
            AuthStarted in r.sflags && r.sname == name
            && r.sid == (if LowerUp in s.sflags && ChallengeValid !in s.sflags then rand + 1 else rand))
  {
  }

  /** chap_auth_with_peer: ignored once started; otherwise the client
      takes our name and starts. */
  function AuthWithPeerSpec(s: St, name: seq<Byte>): (r: St)
    requires StValid(s) && |name| <= MAXNAMELEN
    ensures StValid(r) && AuthStarted in r.cflags
    ensures AuthStarted in s.cflags ==> r == s
    ensures AuthStarted !in s.cflags ==> r == s.(cname := name, cflags := s.cflags + {AuthStarted})
  {
    if AuthStarted in s.cflags then s
    else s.(cname := name, cflags := s.cflags + {AuthStarted})
  }

  /** What the checks outside the state machine say about a response: the
      verifier's result together with auth_number(), the message it
      leaves for the peer, and whether session management refuses the
      peer. */
  datatype Verdict = Verdict(verified: bool, message: seq<Byte>, sessionRejected: bool)

  /** The Success or Failure reply to a response: Failure exactly when the
      server has failed the peer. */
  function ReplySpec(s: St, id: Byte): (r: St)
    ensures r == s.(events := r.events) && |r.events| == |s.events| + 1 && r.events[..|s.events|] == s.events
    ensures var e := r.events[|s.events|];
      e.Output? && |e.packet| == PPP_HDRLEN + CHAP_HDRLEN + |s.message|
      && e.packet[PPP_HDRLEN] == (if AuthFailed in s.sflags then CHAP_FAILURE else CHAP_SUCCESS)
      && e.packet[PPP_HDRLEN + 1] == id
      && e.packet[PPP_HDRLEN + CHAP_HDRLEN..] == s.message
  {
    s.(events := s.events + [Output(StatusPacket(ReplyCode(AuthFailed in s.sflags), id, s.message))])
  }

  /** The end of chap_handle_response after a response to a valid
      challenge: the challenge is used up; a peer not yet judged may still
      be refused by session management; the peer is reported failed or,
      the first time, authenticated, and a rechallenge is armed when one
      is configured; authentication of the peer is then done. */
  function ConcludeSpec(s: St, cfg: Config, name: seq<Byte>, sessionRejected: bool): (r: St)
    ensures AuthDone in r.sflags && ChallengeValid !in r.sflags
  {
    var s1 := s.(sflags := s.sflags - {ChallengeValid});
    var s2 :=
      if AuthDone !in s1.sflags && AuthFailed !in s1.sflags && sessionRejected
      then s1.(sflags := s1.sflags + {AuthFailed}) else s1;
    var s3 :=
      if AuthFailed in s2.sflags then s2.(events := s2.events + [PeerFail])
      else
        var s4 := if AuthDone !in s2.sflags then s2.(events := s2.events + [PeerSuccess(name)]) else s2;
        if cfg.rechallengeTime != 0
        then s4.(sflags := s4.sflags + {TimeoutPending}, events := s4.events + [TimerSet(cfg.rechallengeTime)])
        else s4;
    s3.(sflags := s3.sflags + {AuthDone})
  }

  /** A response to the outstanding challenge that passes the guards: the
      retransmission timer stops, and the verifier leaves its message and
      fails the peer when it refuses the response. */
  function JudgeSpec(s: St, v: Verdict): (r: St)
    requires StValid(s) && |v.message| < 256
    ensures StValid(r)
  {
    var s1 :=
      if TimeoutPending in s.sflags
      then s.(sflags := s.sflags - {TimeoutPending}, events := s.events + [TimerCancelled]) else s;
    s1.(message := v.message, sflags := if v.verified then s1.sflags else s1.sflags + {AuthFailed})
  }

  /** chap_handle_response on the data of a Response packet. Dropped when
      the link is down, the identifier is not the one of the last
      challenge, the data is shorter than 2 bytes, or the Value-Size
      overruns it. With a valid challenge the response is judged and
      answered; without one, a peer already judged gets the verdict
      again. */
  function HandleResponseSpec(s: St, cfg: Config, id: Byte, body: seq<Byte>, v: Verdict): (r: St)
    requires StValid(s) && |v.message| < 256
    ensures StValid(r)
  {
    if LowerUp !in s.sflags then s
    else if id != s.challenge[PPP_HDRLEN + 1] || |body| < 2 then s
    else if ChallengeValid in s.sflags then
      var rlen := body[0];
      if |body| < rlen as int + 1 then s
      else
        var name := if cfg.explicitRemote then cfg.remoteName else body[1 + rlen..];
        ConcludeSpec(ReplySpec(JudgeSpec(s, v), id), cfg, name, v.sessionRejected)
    else if AuthDone !in s.sflags then s
    else ReplySpec(s, id)
  }

  /** The guards of chap_handle_response: a response is dropped when the
      link is down, its identifier is not the last challenge's, its data
      is shorter than 2 bytes, or, with a challenge outstanding, its
      Value-Size overruns the data; and
      when no challenge is outstanding and the peer has not been judged. */
  lemma HandleResponseGuards(s: St, cfg: Config, id: Byte, body: seq<Byte>, v: Verdict)
    requires StValid(s) && |v.message| < 256
    ensures var r := HandleResponseSpec(s, cfg, id, body, v);
      (LowerUp !in s.sflags || id != s.challenge[PPP_HDRLEN + 1] || |body| < 2 ==> r == s)
      && (ChallengeValid in s.sflags && |body| >= 1 && |body| < body[0] as int + 1 ==> r == s)
      && (ChallengeValid !in s.sflags && AuthDone !in s.sflags ==> r == s)
  {
  }

  /** The code of the reply to a response. */
  function ReplyCode(failed: bool): Byte
  {
    if failed then CHAP_FAILURE else CHAP_SUCCESS
  }

  /** A response to the outstanding challenge that passes the guards: a
      pending retransmission is cancelled, the reply carries the
      verifier's message and is Failure exactly when the peer had failed
      or the verifier refuses it; afterwards the challenge is used up,
      authentication of the peer is done, and it has failed exactly when
      the reply said so or session management refused a peer judged for
      the first time, in which case the failure is reported. */
  lemma ResponseJudged(s: St, cfg: Config, id: Byte, body: seq<Byte>, v: Verdict)
    requires StValid(s) && |v.message| < 256
    requires LowerUp in s.sflags && ChallengeValid in s.sflags
    requires id == s.challenge[PPP_HDRLEN + 1] && 2 <= |body| && body[0] as int + 1 <= |body|
    ensures var r := HandleResponseSpec(s, cfg, id, body, v);
      var failed := AuthFailed in s.sflags || !v.verified;
      var k := |s.events| + (if TimeoutPending in s.sflags then 1 else 0);
      (TimeoutPending in s.sflags ==> r.events[|s.events|] == TimerCancelled)
      && |r.events| > k && r.events[k] == Output(StatusPacket(ReplyCode(failed), id, v.message))
      && ChallengeValid !in r.sflags && AuthDone in r.sflags && r.message == v.message
      && (AuthFailed in r.sflags <==> failed || (AuthDone !in s.sflags && v.sessionRejected))
      && (AuthFailed in r.sflags ==> r.events[|r.events| - 1] == PeerFail)
      && r.cflags == s.cflags && r.challenge == s.challenge
  {
    var s2 := JudgeSpec(s, v);
    var name := if cfg.explicitRemote then cfg.remoteName else body[1 + body[0]..];
    var r := ConcludeSpec(ReplySpec(s2, id), cfg, name, v.sessionRejected);
    assert HandleResponseSpec(s, cfg, id, body, v) == r;
    var k := |s2.events|;
    assert ReplySpec(s2, id).events[k] == Output(StatusPacket(ReplyCode(AuthFailed in s.sflags || !v.verified), id, v.message));
    assert ReplySpec(s2, id).events <= r.events;
  }

  /** A response repeated after the peer has been judged, with no
      challenge outstanding, gets the same verdict again and changes no
      flag. */
  lemma RepeatedResponseAnswered(s: St, cfg: Config, id: Byte, body: seq<Byte>, v: Verdict)
    requires StValid(s) && |v.message| < 256
    requires LowerUp in s.sflags && ChallengeValid !in s.sflags && AuthDone in s.sflags
    requires id == s.challenge[PPP_HDRLEN + 1] && 2 <= |body|
    ensures HandleResponseSpec(s, cfg, id, body, v)
      == s.(events := s.events + [Output(StatusPacket(ReplyCode(AuthFailed in s.sflags), id, s.message))])
  {
  }

  /** The Success reply goes out before session management is asked, so a
      peer the verifier accepts but session management refuses is sent
      Success and then reported failed. */
  lemma SuccessSentBeforeSessionCheck(s: St, cfg: Config, id: Byte, body: seq<Byte>, v: Verdict)
    requires StValid(s) && |v.message| < 256
    requires LowerUp in s.sflags && ChallengeValid in s.sflags && s.sflags !! {AuthDone, AuthFailed, TimeoutPending}
    requires id == s.challenge[PPP_HDRLEN + 1] && 2 <= |body| && body[0] as int + 1 <= |body|
    requires v.verified && v.sessionRejected
    ensures HandleResponseSpec(s, cfg, id, body, v).events
      == s.events + [Output(StatusPacket(CHAP_SUCCESS, id, v.message)), PeerFail]
  {
  }

  /** chap_respond on the data of a Challenge packet: only a started
      client with the link up answers, and only when the data holds its
      Value-Size and the value; the answer is a Response with the value
      the digest makes and our name, and no flag changes. */
  function RespondSpec(s: St, id: Byte, body: seq<Byte>, response: seq<Byte>): (r: St)
    requires StValid(s) && |response| <= MAX_RESPONSE_LEN
    ensures StValid(r)
    ensures r.cflags == s.cflags && r.sflags == s.sflags
    ensures r != s <==> {LowerUp, AuthStarted} <= s.cflags
                        && |body| >= 2 && |body| >= body[0] as int + 1
    ensures r != s ==> r == s.(events := s.events + [Output(ValuePacket(CHAP_RESPONSE, id, response, s.cname))])
  {
    if !({LowerUp, AuthStarted} <= s.cflags) then s
    else if |body| < 2 || |body| < body[0] as int + 1 then s
    else s.(events := s.events + [Output(ValuePacket(CHAP_RESPONSE, id, response, s.cname))])
  }

  /** A client waiting for the peer's verdict: the link is up, it has
      started and it is not done (the mask test of chap_handle_status). */
  predicate Awaiting(flags: Flags)
  {
    LowerUp in flags && AuthStarted in flags && AuthDone !in flags
  }

  /** chap_handle_status on a Success or Failure: only a started client
      with the link up that is not yet done takes it. Authentication with
      the peer is then done, and failed unless the code is Success and
      the digest accepts it. */
  function HandleStatusSpec(s: St, code: Byte, accepted: bool): (r: St)
    requires StValid(s)
    ensures StValid(r) && r.sflags == s.sflags
    ensures !Awaiting(s.cflags) ==> r == s
    ensures Awaiting(s.cflags) ==>
      AuthDone in r.cflags
      && (AuthFailed in r.cflags <==> AuthFailed in s.cflags || code != CHAP_SUCCESS || !accepted)
      && r.events == s.events + [if code == CHAP_SUCCESS && accepted then WithPeerSuccess else WithPeerFail]
  {
    if !Awaiting(s.cflags) then s
    else
      var s1 := s.(cflags := s.cflags + {AuthDone});
      if code == CHAP_SUCCESS && accepted then s1.(events := s1.events + [WithPeerSuccess])
      else s1.(cflags := s1.cflags + {AuthFailed}, events := s1.events + [WithPeerFail])
  }

  /** chap_protrej: the peer refuses CHAP. A pending timer is cancelled; a
      started server gives up (all its flags cleared); a started client
      not yet done stops. */
  function ProtrejSpec(s: St): (r: St)
    requires StValid(s)
    ensures StValid(r) && TimeoutPending !in r.sflags
    ensures AuthStarted in s.sflags ==> r.sflags == {}
    ensures AuthStarted !in s.sflags ==> r.sflags == s.sflags - {TimeoutPending}
    ensures AuthStarted in s.cflags && AuthDone !in s.cflags ==> r.cflags == s.cflags - {AuthStarted}
    ensures !(AuthStarted in s.cflags && AuthDone !in s.cflags) ==> r.cflags == s.cflags
  {
    var s1 :=
      if TimeoutPending in s.sflags
      then s.(sflags := s.sflags - {TimeoutPending}, events := s.events + [TimerCancelled]) else s;
    var s2 := if AuthStarted in s1.sflags then s1.(sflags := {}, events := s1.events + [PeerFail]) else s1;
    if AuthStarted in s2.cflags && AuthDone !in s2.cflags
    then s2.(cflags := s2.cflags - {AuthStarted}, events := s2.events + [WithPeerFail])
    else s2
  }

  /** What the surroundings answer while a packet is handled. */
  datatype Env = Env(verdict: Verdict, response: seq<Byte>, accepted: bool)

  predicate EnvValid(env: Env)
  {
    |env.verdict.message| < 256 && |env.response| <= MAX_RESPONSE_LEN
  }

  /** chap_input: a packet that does not frame is ignored; otherwise it is
      dispatched on its code with its data, and unknown codes are ignored. */
  function InputSpec(s: St, cfg: Config, pkt: seq<Byte>, env: Env): (r: St)
    requires StValid(s) && EnvValid(env)
    ensures StValid(r)
    ensures Frame(pkt).None? ==> r == s
    ensures Frame(pkt).Some? && Frame(pkt).value.0 !in {CHAP_CHALLENGE, CHAP_RESPONSE, CHAP_SUCCESS, CHAP_FAILURE} ==> r == s
  {
    match Frame(pkt)
    case None => s
    case Some((code, id, body)) =>
      if code == CHAP_CHALLENGE then RespondSpec(s, id, body, env.response)
      else if code == CHAP_RESPONSE then HandleResponseSpec(s, cfg, id, body, env.verdict)
      else if code == CHAP_FAILURE || code == CHAP_SUCCESS then HandleStatusSpec(s, code, env.accepted)
      else s
  }

  /** The flag words make sense: a side that failed is done, and a server
      with a challenge out, a timer pending or a verdict has started, as
      has a client with a verdict. */
  predicate FlagsConsistent(s: St)
  {
    (AuthFailed in s.sflags ==> AuthDone in s.sflags)
    && ((ChallengeValid in s.sflags || TimeoutPending in s.sflags || AuthDone in s.sflags)
        ==> AuthStarted in s.sflags)
    && (AuthFailed in s.cflags ==> AuthDone in s.cflags)
    && (AuthDone in s.cflags ==> AuthStarted in s.cflags)
  }

  /** The calls the rest of pppd makes, and the timer firing. */
  datatype Call =
    | LinkUp(value: seq<Byte>)
    | LinkDown
    | StartAuthPeer(name: seq<Byte>, rand: Byte, value: seq<Byte>)
    | StartAuthWithPeer(name: seq<Byte>)
    | TimerFires(value: seq<Byte>)
    | Receive(pkt: seq<Byte>, env: Env)
    | ProtocolReject

  predicate CallValid(c: Call)
  {
    match c
    case LinkUp(value) => |value| <= MAX_CHALLENGE_LEN
    case LinkDown => true
    case StartAuthPeer(name, _, value) => |name| <= MAXNAMELEN && |value| <= MAX_CHALLENGE_LEN
    case StartAuthWithPeer(name) => |name| <= MAXNAMELEN
    case TimerFires(value) => |value| <= MAX_CHALLENGE_LEN
    case Receive(_, env) => EnvValid(env)
    case ProtocolReject => true
  }

  /** One call; the timer only fires while it is pending. */
  function Apply(s: St, cfg: Config, c: Call): (r: St)
    requires StValid(s) && CallValid(c)
    ensures StValid(r)
  {
    match c
    case LinkUp(value) => LowerUpSpec(s, cfg, value)
    case LinkDown => LowerDownSpec(s)
    case StartAuthPeer(name, rand, value) => AuthPeerSpec(s, cfg, name, rand, value)
    case StartAuthWithPeer(name) => AuthWithPeerSpec(s, name)
    case TimerFires(value) => if TimeoutPending in s.sflags then TimeoutSpec(s, cfg, value) else s
    case Receive(pkt, env) => InputSpec(s, cfg, pkt, env)
    case ProtocolReject => ProtrejSpec(s)
  }

  /** A sequence of calls. */
  function Run(s: St, cfg: Config, calls: seq<Call>): (r: St)
    requires StValid(s) && forall i | 0 <= i < |calls| :: CallValid(calls[i])
    ensures StValid(r)
    decreases |calls|
  {
    if |calls| == 0 then s else Run(Apply(s, cfg, calls[0]), cfg, calls[1..])
  }

  lemma TimeoutKeepsFlags(s: St, cfg: Config, value: seq<Byte>)
    requires StValid(s) && |value| <= MAX_CHALLENGE_LEN
    requires FlagsConsistent(s) && AuthStarted in s.sflags
    ensures FlagsConsistent(TimeoutSpec(s, cfg, value))
  {
  }

  lemma ResponseKeepsFlags(s: St, cfg: Config, id: Byte, body: seq<Byte>, v: Verdict)
    requires StValid(s) && |v.message| < 256 && FlagsConsistent(s)
    ensures FlagsConsistent(HandleResponseSpec(s, cfg, id, body, v))
  {
  }

  /** Every call keeps the flag words consistent. */
  lemma ApplyKeepsFlags(s: St, cfg: Config, c: Call)
    requires StValid(s) && CallValid(c) && FlagsConsistent(s)
    ensures FlagsConsistent(Apply(s, cfg, c))
  {
    match c
    case LinkUp(value) =>
      var s1 := s.(cflags := s.cflags + {LowerUp}, sflags := s.sflags + {LowerUp});
      if AuthStarted in s1.sflags {
        TimeoutKeepsFlags(s1, cfg, value);
      }
    case StartAuthPeer(name, rand, value) =>
      if AuthStarted !in s.sflags {
        var s1 := s.(sname := name, sid := rand, sflags := s.sflags + {AuthStarted});
        if LowerUp in s1.sflags {
          TimeoutKeepsFlags(s1, cfg, value);
        }
      }
    case TimerFires(value) =>
      if TimeoutPending in s.sflags {
        TimeoutKeepsFlags(s, cfg, value);
      }
    case Receive(pkt, env) =>
      if Frame(pkt).Some? && Frame(pkt).value.0 == CHAP_RESPONSE {
        var (_, id, body) := Frame(pkt).value;
        ResponseKeepsFlags(s, cfg, id, body, env.verdict);
      }
    case LinkDown =>
    case StartAuthWithPeer(_) =>
    case ProtocolReject =>
  }

  /** From the cleared state of chap_init, no sequence of calls ever makes
      the flag words inconsistent. */
  lemma {:induction false} RunKeepsFlags(s: St, cfg: Config, calls: seq<Call>)
    requires StValid(s) && (forall i | 0 <= i < |calls| :: CallValid(calls[i])) && FlagsConsistent(s)
    ensures FlagsConsistent(Run(s, cfg, calls))
    decreases |calls|
  {
    if |calls| > 0 {
      ApplyKeepsFlags(s, cfg, calls[0]);
      RunKeepsFlags(Apply(s, cfg, calls[0]), cfg, calls[1..]);
    }
  }

  /** Writes `bytes` into `a` from position `at`, byte by byte. */
  method Put(a: array<Byte>, at: nat, bytes: seq<Byte>)
    requires at + |bytes| <= a.Length
    modifies a
    ensures a[..] == Overwrite(old(a[..]), at, bytes)
  {
    var i := 0;
    while i < |bytes|
      invariant 0 <= i <= |bytes|
      invariant forall k | 0 <= k < a.Length :: a[k] == if at <= k < at + i then bytes[k - at] else old(a[k])
    {
      a[at + i] := bytes[i];
      i := i + 1;
    }
  }

  /** The four writes of chap_generate_challenge put the whole packet at
      the front of the buffer. */
  lemma ChallengeAssembly(buf: seq<Byte>, value: seq<Byte>, name: seq<Byte>, hdr: seq<Byte>)
    requires |buf| == CHAL_MAX_PKTLEN && |value| <= MAX_CHALLENGE_LEN && |name| <= MAXNAMELEN
    requires |hdr| == CHAP_HDRLEN
    ensures var b1 := Overwrite(buf, 0, PPP_HEADER);
      var b2 := Overwrite(b1, PPP_HDRLEN + CHAP_HDRLEN, [|value|] + value);
      var b3 := Overwrite(b2, PPP_HDRLEN + CHAP_HDRLEN + 1 + |value|, name);
      Overwrite(b3, PPP_HDRLEN, hdr) == Overwrite(buf, 0, PPP_HEADER + hdr + [|value|] + value + name)
  {
    var b1 := Overwrite(buf, 0, PPP_HEADER);
    var b2 := Overwrite(b1, PPP_HDRLEN + CHAP_HDRLEN, [|value|] + value);
    var b3 := Overwrite(b2, PPP_HDRLEN + CHAP_HDRLEN + 1 + |value|, name);
    var packet := PPP_HEADER + hdr + [|value|] + value + name;
    var lhs := Overwrite(b3, PPP_HDRLEN, hdr);
    var rhs := Overwrite(buf, 0, packet);
    forall k | 0 <= k < |buf|
      ensures lhs[k] == rhs[k]
    {
      if k < PPP_HDRLEN {
      } else if k < PPP_HDRLEN + CHAP_HDRLEN {
      } else if k < PPP_HDRLEN + CHAP_HDRLEN + 1 + |value| {
        assert rhs[k] == ([|value|] + value)[k - PPP_HDRLEN - CHAP_HDRLEN];
      } else if k < |packet| {
        assert rhs[k] == name[k - PPP_HDRLEN - CHAP_HDRLEN - 1 - |value|];
      }
    }
  }

  /** The body of chap_generate_challenge: the PPP header, then the
      digest's Value-Size and value, then our name, and the CHAP header
      last, once the length is known, all written in place at the front of
      the challenge buffer. */
  method WriteChallenge(a: array<Byte>, id: Byte, value: seq<Byte>, name: seq<Byte>)
    requires a.Length == CHAL_MAX_PKTLEN && |value| <= MAX_CHALLENGE_LEN && |name| <= MAXNAMELEN
    modifies a
    ensures a[..] == Overwrite(old(a[..]), 0, ValuePacket(CHAP_CHALLENGE, id, value, name))
  {
    ghost var buf := a[..];
    Put(a, 0, PPP_HEADER);
    Put(a, PPP_HDRLEN + CHAP_HDRLEN, [|value|] + value);
    var clen := |value|;
    var nlen := |name|;
    Put(a, PPP_HDRLEN + CHAP_HDRLEN + 1 + clen, name);
    var len := CHAP_HDRLEN + 1 + clen + nlen;
    Put(a, PPP_HDRLEN, ChapHeader(CHAP_CHALLENGE, id, len));
    ChallengeAssembly(buf, value, name, ChapHeader(CHAP_CHALLENGE, id, len));
  }

  /** The client and server state of one PPP unit (both structures,
      together with the log of what they did to their surroundings). */
  class ChapUnit {
    const cfg: Config
    var cflags: Flags
    var cname: seq<Byte>
    var sflags: Flags
    var sid: nat
    var sname: seq<Byte>
    var xmits: int
    var pktlen: nat
    const challenge: array<Byte>
    var message: seq<Byte>
    var events: seq<Event>

    function Snapshot(): St
      reads this, challenge
    {
      St(cflags, cname, sflags, sid, sname, xmits, pktlen, challenge[..], message, events)
    }

    predicate Valid()
      reads this, challenge
    {
      challenge.Length == CHAL_MAX_PKTLEN && StValid(Snapshot())
    }

    /** chap_init: both structures cleared. */
    constructor (cfg: Config)
      ensures Valid() && this.cfg == cfg
      ensures Snapshot() == St({}, [], {}, 0, [], 0, 0, seq(CHAL_MAX_PKTLEN, _ => 0), [], [])
    {
      this.cfg := cfg;
      cflags, cname := {}, [];
      sflags, sid, sname, xmits, pktlen := {}, 0, [], 0, 0;
      challenge := new Byte[CHAL_MAX_PKTLEN](_ => 0);
      message, events := [], [];
    }

    method Lowerup(value: seq<Byte>)
      requires Valid() && |value| <= MAX_CHALLENGE_LEN
      modifies this, challenge
      ensures Valid() && Snapshot() == LowerUpSpec(old(Snapshot()), cfg, value)
    {
      cflags := cflags + {LowerUp};
      sflags := sflags + {LowerUp};
      if AuthStarted in sflags {
        Timeout(value);
      }
    }

    method Lowerdown()
      requires Valid()
      modifies this
      ensures Valid() && Snapshot() == LowerDownSpec(old(Snapshot()))
    {
      cflags := {};
      if TimeoutPending in sflags {
        events := events + [TimerCancelled];
      }
      sflags := {};
    }

    method AuthPeer(name: seq<Byte>, rand: Byte, value: seq<Byte>)
      requires Valid() && |name| <= MAXNAMELEN && |value| <= MAX_CHALLENGE_LEN
      modifies this, challenge
      ensures Valid() && Snapshot() == AuthPeerSpec(old(Snapshot()), cfg, name, rand, value)
    {
      if AuthStarted in sflags {
        return;
      }
      sname := name;
      sid := rand;
      sflags := sflags + {AuthStarted};
      if LowerUp in sflags {
        Timeout(value);
      }
    }

    method AuthWithPeer(name: seq<Byte>)
      requires Valid() && |name| <= MAXNAMELEN
      modifies this
      ensures Valid() && Snapshot() == AuthWithPeerSpec(old(Snapshot()), name)
    {
      if AuthStarted in cflags {
        return;
      }
      cname := name;
      cflags := cflags + {AuthStarted};
    }

    method Timeout(value: seq<Byte>)
      requires Valid() && |value| <= MAX_CHALLENGE_LEN
      modifies this, challenge
      ensures Valid() && Snapshot() == TimeoutSpec(old(Snapshot()), cfg, value)
    {
      sflags := sflags - {TimeoutPending};
      if ChallengeValid !in sflags {
        xmits := 0;
        GenerateChallenge(value);
        sflags := sflags + {ChallengeValid};
      } else if xmits >= cfg.maxTransmits {
        sflags := sflags - {ChallengeValid} + {AuthDone, AuthFailed};
        events := events + [PeerFail];
        return;
      }
      events := events + [Output(challenge[..pktlen])];
      xmits := xmits + 1;
      sflags := sflags + {TimeoutPending};
      events := events + [TimerSet(cfg.timeoutTime)];
    }

    /** The challenge is written into the buffer in place: the PPP header,
        then the digest's Value-Size and value, then our name, and the
        CHAP header last, once the length is known. */
    method GenerateChallenge(value: seq<Byte>)
      requires Valid() && |value| <= MAX_CHALLENGE_LEN
      modifies this, challenge
      ensures Valid() && Snapshot() == GenerateChallengeSpec(old(Snapshot()), value)
    {
      sid := sid + 1;
      WriteChallenge(challenge, sid % 0x100, value, sname);
      pktlen := PPP_HDRLEN + CHAP_HDRLEN + 1 + |value| + |sname|;
    }

    method HandleResponse(id: Byte, body: seq<Byte>, v: Verdict)
      requires Valid() && |v.message| < 256
      modifies this
      ensures Valid() && Snapshot() == HandleResponseSpec(old(Snapshot()), cfg, id, body, v)
    {
      if LowerUp !in sflags {
        return;
      }
      if id != challenge[PPP_HDRLEN + 1] || |body| < 2 {
        return;
      }
      var name: seq<Byte> := [];
      if ChallengeValid in sflags {
        var responseLen := body[0];
        var len := |body| - (responseLen as int + 1);
        if len < 0 {
          return;
        }
        name := if cfg.explicitRemote then cfg.remoteName else body[1 + responseLen..];
        Judge(v);
      } else if AuthDone !in sflags {
        return;
      }
      Reply(id);
      if ChallengeValid in sflags {
        Conclude(name, v.sessionRejected);
      }
    }

    /** The verifier's judgement of a response. */
    method Judge(v: Verdict)
      requires Valid() && |v.message| < 256
      modifies this
      ensures Valid() && Snapshot() == JudgeSpec(old(Snapshot()), v)
    {
      if TimeoutPending in sflags {
        sflags := sflags - {TimeoutPending};
        events := events + [TimerCancelled];
      }
      message := v.message;
      if !v.verified {
        sflags := sflags + {AuthFailed};
      }
    }

    /** The Success or Failure reply to a response. */
    method Reply(id: Byte)
      requires Valid()
      modifies this
      ensures Valid() && Snapshot() == ReplySpec(old(Snapshot()), id)
    {
      var code := if AuthFailed in sflags then CHAP_FAILURE else CHAP_SUCCESS;
      events := events + [Output(StatusPacket(code, id, message))];
    }

    /** The verdict on a response to the outstanding challenge. */
    method Conclude(name: seq<Byte>, sessionRejected: bool)
      requires Valid()
      modifies this
      ensures Valid() && Snapshot() == ConcludeSpec(old(Snapshot()), cfg, name, sessionRejected)
    {
      sflags := sflags - {ChallengeValid};
      if AuthDone !in sflags && AuthFailed !in sflags && sessionRejected {
        sflags := sflags + {AuthFailed};
      }
      if AuthFailed in sflags {
        events := events + [PeerFail];
      } else {
        if AuthDone !in sflags {
          events := events + [PeerSuccess(name)];
        }
        if cfg.rechallengeTime != 0 {
          sflags := sflags + {TimeoutPending};
          events := events + [TimerSet(cfg.rechallengeTime)];
        }
      }
      sflags := sflags + {AuthDone};
    }

    method Respond(id: Byte, body: seq<Byte>, response: seq<Byte>)
      requires Valid() && |response| <= MAX_RESPONSE_LEN
      modifies this
      ensures Valid() && Snapshot() == RespondSpec(old(Snapshot()), id, body, response)
    {
      if !({LowerUp, AuthStarted} <= cflags) {
        return;
      }
      if |body| < 2 || |body| < body[0] as int + 1 {
        return;
      }
      events := events + [Output(ValuePacket(CHAP_RESPONSE, id, response, cname))];
    }

    method HandleStatus(code: Byte, accepted: bool)
      requires Valid()
      modifies this
      ensures Valid() && Snapshot() == HandleStatusSpec(old(Snapshot()), code, accepted)
    {
      if !Awaiting(cflags) {
        return;
      }
      cflags := cflags + {AuthDone};
      var c := if code == CHAP_SUCCESS && !accepted then CHAP_FAILURE else code;
      if c == CHAP_SUCCESS {
        events := events + [WithPeerSuccess];
      } else {
        cflags := cflags + {AuthFailed};
        events := events + [WithPeerFail];
      }
    }

    method Protrej()
      requires Valid()
      modifies this
      ensures Valid() && Snapshot() == ProtrejSpec(old(Snapshot()))
    {
      if TimeoutPending in sflags {
        sflags := sflags - {TimeoutPending};
        events := events + [TimerCancelled];
      }
      if AuthStarted in sflags {
        sflags := {};
        events := events + [PeerFail];
      }
      if AuthStarted in cflags && AuthDone !in cflags {
        cflags := cflags - {AuthStarted};
        events := events + [WithPeerFail];
      }
    }

    method Input(pkt: seq<Byte>, env: Env)
      requires Valid() && EnvValid(env)
      modifies this
      ensures Valid() && Snapshot() == InputSpec(old(Snapshot()), cfg, pkt, env)
    {
      if |pkt| < CHAP_HDRLEN {
        return;
      }
      var code, id := pkt[0], pkt[1];
      var len := pkt[2] as int * 0x100 + pkt[3] as int;
      if len < CHAP_HDRLEN || len > |pkt| {
        return;
      }
      var body := pkt[CHAP_HDRLEN .. len];
      if code == CHAP_CHALLENGE {
        Respond(id, body, env.response);
      } else if code == CHAP_RESPONSE {
        HandleResponse(id, body, env.verdict);
      } else if code == CHAP_FAILURE || code == CHAP_SUCCESS {
        HandleStatus(code, env.accepted);
      }
    }
  }
}
