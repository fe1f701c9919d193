/**
 * One scan: `main` walks the active transfers and, in each, the peers aria2
 * reports, decides about every peer and calls `ipset_add` for the peers the
 * decision bans (unless DRY_RUN is set).  The RPC answers are an input
 * here, and each `ipset_add` call is recorded as a BlockCall.
 */
module Scan {
  import opened PeerId
  import opened ClientTag
  import opened LeechScore

  /** An active download (`aria2.tellActive`) with its peers (`aria2.getPeers`). */
  datatype Transfer = Transfer(gid: string, peers: seq<Peer>)

  /** One `ipset add xunlei_blacklist <ip> timeout <timeout> -exist`. */
  datatype BlockCall = BlockCall(ip: string, timeout: nat)

  /** The decision taken on one peer visit. */
  datatype Report = Report(ip: string, outcome: Outcome)

  /** Every peer visit of a scan, transfer by transfer and in each in aria2's order. */
  function AllPeers(transfers: seq<Transfer>): seq<Peer> {
    if transfers == [] then []
    else AllPeers(transfers[..|transfers| - 1]) + transfers[|transfers| - 1].peers
  }

  /** The decisions of a run of visits, one per visit, in order. */
  function Reports(ps: seq<Peer>, log2: real -> real): (rs: seq<Report>)
    ensures |rs| == |ps|
  {
    if ps == [] then []
    else Reports(ps[..|ps| - 1], log2) + [Report(ps[|ps| - 1].ip, Decide(ps[|ps| - 1], log2))]
  }

  /** The block calls a run of visits makes when not in dry-run mode. */
  function BlockCalls(ps: seq<Peer>, log2: real -> real): (calls: seq<BlockCall>)
    ensures |calls| <= |ps|
    ensures forall c :: c in calls ==> c.timeout == BAN_TIMEOUT
  {
    if ps == [] then []
    else
      var p := ps[|ps| - 1];
      BlockCalls(ps[..|ps| - 1], log2) + (if Blocks(Decide(p, log2)) then [BlockCall(p.ip, BAN_TIMEOUT)] else [])
  }

  /**
   * The two nested loops of `main`.  The decisions are the same with and
   * without dry run; the block calls are exactly those BlockCalls lists, or
   * none in dry-run mode.
   */
  method Sweep(transfers: seq<Transfer>, dryRun: bool, log2: real -> real)
    returns (reports: seq<Report>, calls: seq<BlockCall>)
    ensures reports == Reports(AllPeers(transfers), log2)
    ensures calls == if dryRun then [] else BlockCalls(AllPeers(transfers), log2)
  {
    reports, calls := [], [];
    ghost var visited: seq<Peer> := [];
    var i := 0;
    while i < |transfers|
      invariant 0 <= i <= |transfers|
      invariant visited == AllPeers(transfers[..i])
      invariant reports == Reports(visited, log2)
      invariant calls == if dryRun then [] else BlockCalls(visited, log2)
    {
      var peers := transfers[i].peers;
      ghost var before := visited;
      var j := 0;
      assert before + peers[..j] == before;
      while j < |peers|
        invariant 0 <= j <= |peers|
        invariant visited == before + peers[..j]
        invariant reports == Reports(visited, log2)
        invariant calls == if dryRun then [] else BlockCalls(visited, log2)
      {
        var p := peers[j];
        var outcome := Decide(p, log2);
        VisitStep(visited, p, log2);
        ExtendSlice(before, peers, j);
        reports := reports + [Report(p.ip, outcome)];
        match outcome {
          case DirectBan =>
            if !dryRun {
              calls := calls + [BlockCall(p.ip, BAN_TIMEOUT)];
            }
          case Skip =>
          case Scored(_, _, _, ban) =>
            if ban && !dryRun {
              calls := calls + [BlockCall(p.ip, BAN_TIMEOUT)];
            }
        }
        visited := visited + [p];
        j := j + 1;
      }
      assert peers[..j] == peers;
      AllPeersStep(transfers, i);
      i := i + 1;
    }
    assert transfers[..i] == transfers;
  }

  lemma ExtendSlice<T>(xs: seq<T>, ys: seq<T>, j: nat)
    requires j < |ys|
    ensures xs + ys[..j + 1] == (xs + ys[..j]) + [ys[j]]
  {
    assert ys[..j + 1] == ys[..j] + [ys[j]];
  }

  lemma SplitLast<T>(xs: seq<T>, ys: seq<T>)
    requires ys != []
    ensures ys == ys[..|ys| - 1] + [ys[|ys| - 1]]
    ensures xs + ys == (xs + ys[..|ys| - 1]) + [ys[|ys| - 1]]
  {
  }

  lemma AllPeersStep(transfers: seq<Transfer>, i: nat)
    requires i < |transfers|
    ensures AllPeers(transfers[..i + 1]) == AllPeers(transfers[..i]) + transfers[i].peers
  {
    assert transfers[..i + 1][..i] == transfers[..i];
  }

  /** One more visit adds its decision and, if it bans, its block call. */
  lemma VisitStep(ps: seq<Peer>, p: Peer, log2: real -> real)
    ensures Reports(ps + [p], log2) == Reports(ps, log2) + [Report(p.ip, Decide(p, log2))]
    ensures BlockCalls(ps + [p], log2)
         == BlockCalls(ps, log2) + (if Blocks(Decide(p, log2)) then [BlockCall(p.ip, BAN_TIMEOUT)] else [])
  {
    assert (ps + [p])[..|ps|] == ps;
  }

  /** The k-th decision is the decision about the k-th visit. */
  lemma {:induction false} ReportsAt(ps: seq<Peer>, log2: real -> real, k: nat)
    requires k < |ps|
    ensures Reports(ps, log2)[k] == Report(ps[k].ip, Decide(ps[k], log2))
  {
    if k < |ps| - 1 {
      ReportsAt(ps[..|ps| - 1], log2, k);
    }
  }

  /** Block calls of consecutive runs of visits follow each other: the order is the visit order. */
  lemma {:induction false} BlockCallsAppend(ps: seq<Peer>, qs: seq<Peer>, log2: real -> real)
    ensures BlockCalls(ps + qs, log2) == BlockCalls(ps, log2) + BlockCalls(qs, log2)
  {
    if qs == [] {
      assert ps + qs == ps;
    } else {
      var init, q := qs[..|qs| - 1], qs[|qs| - 1];
      SplitLast(ps, qs);
      BlockCallsAppend(ps, init, log2);
      VisitStep(ps + init, q, log2);
      VisitStep(init, q, log2);
    }
  }

  /** Whether a visit of `p` blocks the address `ip`. */
  predicate BlocksAddress(p: Peer, log2: real -> real, ip: string) {
    p.ip == ip && Blocks(Decide(p, log2))
  }

  /** An address is blocked exactly when one of its visits is a direct ban or a score ban. */
  lemma {:induction false} BlockedIff(ps: seq<Peer>, log2: real -> real, ip: string)
    ensures BlockCall(ip, BAN_TIMEOUT) in BlockCalls(ps, log2)
        <==> exists k :: 0 <= k < |ps| && BlocksAddress(ps[k], log2, ip)
  {
    if ps != [] {
      var init, p := ps[..|ps| - 1], ps[|ps| - 1];
      assert ps == init + [p];
      BlockedIff(init, log2, ip);
      VisitStep(init, p, log2);
      if exists k :: 0 <= k < |init| && BlocksAddress(init[k], log2, ip) {
        var k :| 0 <= k < |init| && BlocksAddress(init[k], log2, ip);
        assert ps[k] == init[k];
      }
      if exists k :: 0 <= k < |ps| && BlocksAddress(ps[k], log2, ip) {
        var k :| 0 <= k < |ps| && BlocksAddress(ps[k], log2, ip);
        if k < |init| {
          assert init[k] == ps[k];
        }
      }
    }
  }

  /**
   * Visiting a seeder or a slow peer that is not an Xunlei peer adds no block
   * call, whatever its upload speed; visiting an Xunlei peer adds one.
   */
  lemma VisitEffect(ps: seq<Peer>, p: Peer, log2: real -> real)
    ensures !StartsWithXL(DecodedId(p)) && (IsSeeder(p) || p.dl < DL_MIN)
      ==> BlockCalls(ps + [p], log2) == BlockCalls(ps, log2)
    ensures StartsWithXL(DecodedId(p))
      ==> BlockCalls(ps + [p], log2) == BlockCalls(ps, log2) + [BlockCall(p.ip, BAN_TIMEOUT)]
  {
    assert (ps + [p])[..|ps|] == ps;
  }

  /**
   * Two transfers, an Xunlei peer in the first and a qBittorrent peer
   * downloading 100 000 B/s and uploading 1 000 B/s in the second: both are
   * blocked, the first directly and the second by its score, in that order.
   */
  lemma TwoTransferScenario(xl: Peer, qb: Peer, log2: real -> real)
    requires IsLog2(log2)
    requires xl.peerId.Some? && xl.peerId.value == "-XL0000-xxxxxxxxxxxx"
    requires qb.peerId.Some? && qb.peerId.value == "-qB4690-xxxxxxxxxxxx"
    requires qb.dl == 100000 && qb.ul == 1000 && qb.seeder == Some("false")
    ensures Decide(xl, log2) == DirectBan
    ensures Decide(qb, log2).Scored? && Decide(qb, log2).tag == "qB4690" && Decide(qb, log2).ban
    ensures BlockCalls(AllPeers([Transfer("g1", [xl]), Transfer("g2", [qb])]), log2)
         == [BlockCall(xl.ip, BAN_TIMEOUT), BlockCall(qb.ip, BAN_TIMEOUT)]
  {
    XLPeerDecision(xl, log2);
    QBPeerDecision(qb, log2);
    var ts := [Transfer("g1", [xl]), Transfer("g2", [qb])];
    assert ts[..2] == ts && ts[..0] == [];
    AllPeersStep(ts, 0);
    AllPeersStep(ts, 1);
    assert AllPeers(ts) == [xl] + [qb];
    VisitStep([xl], qb, log2);
    VisitStep([], xl, log2);
    assert [] + [xl] == [xl];
  }

  lemma XLPeerDecision(p: Peer, log2: real -> real)
    requires p.peerId.Some? && p.peerId.value == "-XL0000-xxxxxxxxxxxx"
    ensures Decide(p, log2) == DirectBan
  {
    var id: AsciiString := p.peerId.value;
    DecodePeerIdPlain(id);
    assert id[..3] == "-XL";
  }

  lemma QBPeerDecision(p: Peer, log2: real -> real)
    requires IsLog2(log2)
    requires p.peerId.Some? && p.peerId.value == "-qB4690-xxxxxxxxxxxx"
    requires p.dl == 100000 && p.ul == 1000 && p.seeder == Some("false")
    ensures var o := Decide(p, log2); o.Scored? && o.tag == "qB4690" && o.ban
  {
    var id: AsciiString := p.peerId.value;
    DecodePeerIdPlain(id);
    QBTag(id);
    LowUploadIsBanned(log2);
  }

  lemma QBTag(id: string)
    requires id == "-qB4690-xxxxxxxxxxxx"
    ensures ParseClientTag(id) == "qB4690"
  {
    assert id[1] != 'X';
    assert id[1..7] == "qB4690";
  }
}
