/** The sender's side of receiver discovery (scan_receivers in
    sender/gui.py): one broadcast request, then every reply that arrives
    within the window is parsed, kept in arrival order, and the first one
    fills in the receiver IP. */
module Discovery {
  import opened Wrappers
  import opened Strings
  import Sender

  const DiscoverMessage: string := "OSD_DISCOVER"
  const BroadcastAddress: string := "255.255.255.255"
  const Separator: char := ':'
  const AckTag: string := "OSD_ACK"
  const AckPrefix: string := AckTag + [Separator]

  /** A receiver that answered: its host name and its address. */
  datatype Peer = Peer(hostname: string, ip: string)

  /** The broadcast datagram the scan sends. */
  datatype Request = Request(payload: string, address: string, port: int)

  /** One received datagram: its text, or `Garbled` when decoding it (or
      the receive itself) raised something other than the timeout. */
  datatype Arrival = Text(text: string) | Garbled

  /** The request goes to the limited broadcast address on the configured
      discovery port, and is never itself taken for a reply. */
  function DiscoveryRequest(c: Sender.SenderConfig): (r: Request)
    ensures r.payload == "OSD_DISCOVER" && r.address == "255.255.255.255"
    ensures r.port == c.discoveryPort
    ensures ParseReply(Text(r.payload)).None?
  {
    assert !StartsWith(DiscoverMessage, AckPrefix) by {
      assert DiscoverMessage[4] != AckPrefix[4];
    }
    Request(DiscoverMessage, BroadcastAddress, c.discoveryPort)
  }

  /** `text` is a reply naming `peer`: the tag, the host name, a colon and
      the address, then either nothing or further colon-led fields. Neither
      name may hold a colon. */
  predicate ReplyNames(text: string, peer: Peer)
  {
    var head := AckPrefix + peer.hostname + [Separator] + peer.ip;
    && Unseparated(peer.hostname, Separator)
    && Unseparated(peer.ip, Separator)
    && StartsWith(text, head)
    && (|text| == |head| || text[|head|] == Separator)
  }

  /** One datagram of the receive loop: accepted only when it starts with
      the tag and splits into at least three fields; fields 1 and 2 are
      the host name and address, anything after is ignored. */
  function ParseReply(a: Arrival): (r: Option<Peer>)
    ensures r.Some? ==> a.Text? && StartsWith(a.text, AckPrefix)
    ensures r.Some? ==> Unseparated(r.value.hostname, Separator) && Unseparated(r.value.ip, Separator)
  {
    match a
    case Garbled => None
    case Text(t) =>
      if !StartsWith(t, AckPrefix) then None
      else
        var parts := Split(t, Separator);
        if |parts| < 3 then None
        else Some(Peer(parts[1], parts[2]))
  }

  /** Whatever is accepted is a reply naming the peer returned. */
  lemma ParseReplySound(a: Arrival)
    ensures ParseReply(a).Some? ==> a.Text? && ReplyNames(a.text, ParseReply(a).value)
  {
    if ParseReply(a).Some? {
      AcceptedReplyNamesFields(a.text);
    }
  }

  /** The text after the tag is the rest of the split. */
  lemma SplitAfterTag(t: string)
    requires StartsWith(t, AckPrefix)
    ensures Split(t, Separator) == [AckTag] + Split(t[|AckPrefix|..], Separator)
  {
    assert t == AckTag + [Separator] + t[|AckPrefix|..];
    SplitField(AckTag, t[|AckPrefix|..], Separator);
  }

  lemma AcceptedReplyNamesFields(t: string)
    requires StartsWith(t, AckPrefix) && |Split(t, Separator)| >= 3
    ensures ReplyNames(t, Peer(Split(t, Separator)[1], Split(t, Separator)[2]))
  {
    var u := t[|AckPrefix|..];
    SplitAfterTag(t);
    var fields := Split(u, Separator);
    var rest := SplitFirstTwo(u, Separator);
    var h, ip := fields[0], fields[1];
    assert Unseparated(h, Separator) && Unseparated(ip, Separator);
    var head := AckPrefix + h + [Separator] + ip;
    assert t == AckPrefix + u;
    assert t == head + rest;
    assert t[..|head|] == head;
  }

  /** Every reply naming a peer is accepted with exactly that peer. */
  lemma ReplyNamesAccepted(text: string, peer: Peer)
    requires ReplyNames(text, peer)
    ensures ParseReply(Text(text)) == Some(peer)
  {
    var rest := ReplyRemainder(text, peer);
    SplitAfterTag(text);
    SplitField(peer.hostname, peer.ip + rest, Separator);
    var tail := Split(peer.ip + rest, Separator);
    IpFieldSplit(peer.ip, rest);
    assert Split(text, Separator) == [AckTag, peer.hostname] + tail;
  }

  /** A reply is the tag, the host name, a colon, and the address followed by
      the remainder. */
  lemma ReplyRemainder(text: string, peer: Peer) returns (rest: string)
    requires ReplyNames(text, peer)
    ensures StartsWith(text, AckPrefix)
    ensures text[|AckPrefix|..] == peer.hostname + [Separator] + (peer.ip + rest)
    ensures rest == "" || rest[0] == Separator
  {
    var h, ip := peer.hostname, peer.ip;
    var body := h + [Separator] + ip;
    var head := AckPrefix + body;
    assert head == AckPrefix + h + [Separator] + ip;
    rest := text[|head|..];
    assert text == AckPrefix + (body + rest);
    assert text[|AckPrefix|..] == body + rest;
  }

  /** The address field, followed by nothing or by a colon, is split off whole. */
  lemma IpFieldSplit(ip: string, rest: string)
    requires Unseparated(ip, Separator)
    requires rest == "" || rest[0] == Separator
    ensures Split(ip + rest, Separator)[0] == ip
  {
    if rest == "" {
      assert ip + rest == ip;
      SplitJoin([ip], Separator);
    } else {
      assert ip + rest == ip + [Separator] + rest[1..];
      SplitField(ip, rest[1..], Separator);
    }
  }

  /** A tagged datagram carrying only one further field is dropped. */
  lemma HostnameOnlyRejected(h: string)
    requires Unseparated(h, Separator)
    ensures ParseReply(Text(AckPrefix + h)) == None
  {
    var t := AckPrefix + h;
    assert t[..|AckPrefix|] == AckPrefix;
    SplitAfterTag(t);
    assert t[|AckPrefix|..] == h;
    SplitJoin([h], Separator);
  }

  /** The client does not insist on non-empty names: a bare `OSD_ACK::`
      is accepted with an empty host name and address. */
  lemma EmptyNamesAccepted()
    ensures ParseReply(Text("OSD_ACK::")) == Some(Peer("", ""))
  {
    ReplyNamesAccepted("OSD_ACK::", Peer("", ""));
  }

  /** The replies the receive loop keeps from the datagrams that arrived,
      in arrival order and without removing duplicates. */
  function CollectReplies(arrivals: seq<Arrival>): (found: seq<Peer>)
    ensures |found| <= |arrivals|
    decreases |arrivals|
  {
    if |arrivals| == 0 then []
    else
      var n := |arrivals| - 1;
      CollectReplies(arrivals[..n]) + Kept(arrivals[n])
  }

  /** What one datagram adds to the list: its peer, or nothing. */
  function Kept(a: Arrival): seq<Peer>
  {
    match ParseReply(a)
    case None => []
    case Some(p) => [p]
  }

  /** The positions of the accepted datagrams, in arrival order. */
  function AcceptedPositions(arrivals: seq<Arrival>): (idx: seq<nat>)
    ensures forall k :: 0 <= k < |idx| ==> idx[k] < |arrivals|
    decreases |arrivals|
  {
    if |arrivals| == 0 then []
    else
      var n := |arrivals| - 1;
      AcceptedPositions(arrivals[..n]) + if ParseReply(arrivals[n]).Some? then [n] else []
  }

  predicate StrictlyIncreasing(s: seq<nat>)
  {
    forall k, l :: 0 <= k < l < |s| ==> s[k] < s[l]
  }

  /** Every kept reply comes from an accepted datagram: the k-th reply is
      the peer of the datagram at the k-th accepted position. */
  lemma {:induction false} KeptRepliesFromPositions(arrivals: seq<Arrival>)
    ensures |AcceptedPositions(arrivals)| == |CollectReplies(arrivals)|
    ensures forall k :: 0 <= k < |AcceptedPositions(arrivals)| ==>
              ParseReply(arrivals[AcceptedPositions(arrivals)[k]]) == Some(CollectReplies(arrivals)[k])
    decreases |arrivals|
  {
    if |arrivals| > 0 {
      var n := |arrivals| - 1;
      var init := arrivals[..n];
      KeptRepliesFromPositions(init);
      var idx, found := AcceptedPositions(arrivals), CollectReplies(arrivals);
      var pidx, pfound := AcceptedPositions(init), CollectReplies(init);
      assert idx == pidx + (if ParseReply(arrivals[n]).Some? then [n] else []);
      assert found == pfound + Kept(arrivals[n]);
      forall k | 0 <= k < |idx|
        ensures ParseReply(arrivals[idx[k]]) == Some(found[k])
      {
        if k < |pidx| {
          assert idx[k] == pidx[k] && found[k] == pfound[k];
          assert init[pidx[k]] == arrivals[pidx[k]];
        }
      }
    }
  }

  /** The accepted positions are strictly increasing: replies are kept in
      the order their datagrams arrived. */
  lemma {:induction false} PositionsIncrease(arrivals: seq<Arrival>)
    ensures StrictlyIncreasing(AcceptedPositions(arrivals))
    decreases |arrivals|
  {
    if |arrivals| > 0 {
      var n := |arrivals| - 1;
      PositionsIncrease(arrivals[..n]);
      var pidx := AcceptedPositions(arrivals[..n]);
      var idx := AcceptedPositions(arrivals);
      assert idx == pidx + (if ParseReply(arrivals[n]).Some? then [n] else []);
      forall k, l | 0 <= k < l < |idx|
        ensures idx[k] < idx[l]
      {
        assert k < |pidx|;
        if l < |pidx| {
          assert idx[k] == pidx[k] && idx[l] == pidx[l];
          assert pidx[k] < pidx[l];
        } else {
          assert idx[k] == pidx[k] && idx[l] == n;
          assert pidx[k] < |arrivals[..n]|;
        }
      }
    }
  }

  /** No accepted datagram is lost, duplicate or not: the peer of the
      datagram at position i is kept, right after the replies of the
      datagrams before it. */
  lemma AcceptedDatagramKept(arrivals: seq<Arrival>, i: int, p: Peer)
    requires 0 <= i < |arrivals| && ParseReply(arrivals[i]) == Some(p)
    ensures var before := |CollectReplies(arrivals[..i])|;
            before < |CollectReplies(arrivals)| && CollectReplies(arrivals)[before] == p
  {
    assert arrivals == arrivals[..i] + [arrivals[i]] + arrivals[i + 1..];
    AcceptedKept(arrivals[..i], arrivals[i], arrivals[i + 1..], p);
  }

  /** Datagrams none of which is a reply yield no receivers. */
  lemma {:induction false} NothingAccepted(arrivals: seq<Arrival>)
    requires forall i :: 0 <= i < |arrivals| ==> ParseReply(arrivals[i]).None?
    ensures CollectReplies(arrivals) == []
    decreases |arrivals|
  {
    if |arrivals| > 0 {
      var n := |arrivals| - 1;
      assert forall i :: 0 <= i < n ==> arrivals[..n][i] == arrivals[i];
      NothingAccepted(arrivals[..n]);
    }
  }

  /** The loop's work splits at any point of the arrival stream. */
  lemma {:induction false} CollectAppend(xs: seq<Arrival>, ys: seq<Arrival>)
    ensures CollectReplies(xs + ys) == CollectReplies(xs) + CollectReplies(ys)
    decreases |ys|
  {
    if |ys| == 0 {
      assert xs + ys == xs;
    } else {
      var n := |ys| - 1;
      var zs := xs + ys;
      var init := ys[..n];
      assert zs[..|zs| - 1] == xs + init;
      CollectAppend(xs, init);
      var a, b, c := CollectReplies(xs), CollectReplies(init), Kept(ys[n]);
      assert CollectReplies(ys) == b + c;
      assert CollectReplies(zs) == (a + b) + c;
      assert (a + b) + c == a + (b + c);
    }
  }

  /** A datagram that is not a reply contributes nothing, and the ones after
      it are still read. */
  lemma RejectedSkipped(xs: seq<Arrival>, a: Arrival, ys: seq<Arrival>)
    requires ParseReply(a).None?
    ensures CollectReplies(xs + [a] + ys) == CollectReplies(xs + ys)
  {
    CollectAppend(xs + [a], ys);
    CollectAppend(xs, [a]);
    CollectAppend(xs, ys);
    CollectOne(a);
  }

  /** An accepted datagram contributes its peer at its place in the order,
      even when the same peer answered before. */
  lemma AcceptedKept(xs: seq<Arrival>, a: Arrival, ys: seq<Arrival>, p: Peer)
    requires ParseReply(a) == Some(p)
    ensures CollectReplies(xs + [a] + ys) == CollectReplies(xs) + [p] + CollectReplies(ys)
  {
    CollectAppend(xs + [a], ys);
    CollectAppend(xs, [a]);
    CollectOne(a);
  }

  lemma CollectOne(a: Arrival)
    ensures CollectReplies([a]) == Kept(a)
  {
  }

  /** The receive loop of scan_receivers over the datagrams that arrived
      before the window closed. */
  method ReceiveReplies(arrivals: seq<Arrival>) returns (found: seq<Peer>)
    ensures found == CollectReplies(arrivals)
  {
    found := [];
    var i := 0;
    while i < |arrivals|
      invariant 0 <= i <= |arrivals|
      invariant found == CollectReplies(arrivals[..i])
    {
      assert arrivals[..i + 1][..i] == arrivals[..i];
      match ParseReply(arrivals[i]) {
        case None =>
        case Some(p) =>
          found := found + [p];
      }
      i := i + 1;
    }
    assert arrivals[..i] == arrivals;
  }

  /** What the scan tells the user. */
  datatype ScanReport =
    | NoReceivers
    | FoundOne(peer: Peer)
    | FoundSeveral(selected: Peer, all: seq<Peer>)
    | ScanFailed

  /** The IP entry's text after the scan, and the report shown. */
  datatype ScanResult = ScanResult(ipEntry: string, report: ScanReport)

  /** The end of scan_receivers: no replies leave the IP entry as it was;
      otherwise the first reply's address replaces it, whether one receiver
      answered or several. */
  function SelectReceiver(ipEntry: string, found: seq<Peer>): (r: ScanResult)
    ensures r.report.NoReceivers? <==> |found| == 0
    ensures |found| == 0 ==> r.ipEntry == ipEntry
    ensures |found| > 0 ==> r.ipEntry == found[0].ip
    ensures r.report.FoundOne? <==> |found| == 1
    ensures r.report.FoundOne? ==> r.report.peer == found[0]
    ensures r.report.FoundSeveral? ==> r.report.selected == found[0] && r.report.all == found
    ensures !r.report.ScanFailed?
  {
    if |found| == 0 then ScanResult(ipEntry, NoReceivers)
    else if |found| == 1 then ScanResult(found[0].ip, FoundOne(found[0]))
    else ScanResult(found[0].ip, FoundSeveral(found[0], found))
  }

  /** The whole scan; `None` stands for the socket setup or the broadcast
      raising, which is reported and leaves the IP entry alone. */
  function Scan(ipEntry: string, received: Option<seq<Arrival>>): (r: ScanResult)
    ensures received.None? ==> r == ScanResult(ipEntry, ScanFailed)
  {
    match received
    case None => ScanResult(ipEntry, ScanFailed)
    case Some(arrivals) => SelectReceiver(ipEntry, CollectReplies(arrivals))
  }

  /** The IP entry is taken from the first accepted datagram, whatever was
      dropped before it or arrives after it. */
  lemma ScanPicksFirstReply(ipEntry: string, dropped: seq<Arrival>, a: Arrival, rest: seq<Arrival>, p: Peer)
    requires forall i :: 0 <= i < |dropped| ==> ParseReply(dropped[i]).None?
    requires ParseReply(a) == Some(p)
    ensures Scan(ipEntry, Some(dropped + [a] + rest)).ipEntry == p.ip
  {
    AcceptedKept(dropped, a, rest, p);
    NothingAccepted(dropped);
  }

  /** The IP entry stays as it was exactly when no datagram was accepted. */
  lemma ScanWithoutReplies(ipEntry: string, arrivals: seq<Arrival>)
    ensures Scan(ipEntry, Some(arrivals)).report.NoReceivers?
            <==> forall i :: 0 <= i < |arrivals| ==> ParseReply(arrivals[i]).None?
    ensures Scan(ipEntry, Some(arrivals)).report.NoReceivers? ==> Scan(ipEntry, Some(arrivals)).ipEntry == ipEntry
  {
    if exists i :: 0 <= i < |arrivals| && ParseReply(arrivals[i]).Some? {
      var i :| 0 <= i < |arrivals| && ParseReply(arrivals[i]).Some?;
      AcceptedDatagramKept(arrivals, i, ParseReply(arrivals[i]).value);
    } else {
      NothingAccepted(arrivals);
    }
  }

  /** A single receiver answering, whatever non-replies arrive around its
      reply: it is the one receiver found, and its address replaces what
      the IP field held. */
  lemma OneReceiverAnswers(ipEntry: string, before: seq<Arrival>, text: string, peer: Peer, after: seq<Arrival>)
    requires ReplyNames(text, peer)
    requires forall i :: 0 <= i < |before| ==> ParseReply(before[i]).None?
    requires forall i :: 0 <= i < |after| ==> ParseReply(after[i]).None?
    ensures Scan(ipEntry, Some(before + [Text(text)] + after)) == ScanResult(peer.ip, FoundOne(peer))
  {
    ReplyNamesAccepted(text, peer);
    AcceptedKept(before, Text(text), after, peer);
    NothingAccepted(before);
    NothingAccepted(after);
  }
}
