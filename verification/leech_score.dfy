/**
 * The per-peer decision of one scan: Xunlei peers are banned outright;
 * other peers are skipped when they seed or download too slowly to judge,
 * and otherwise get a leech score from their download and upload speeds
 * that is compared with the ban threshold.
 */
module LeechScore {
  import opened PeerId
  import opened ClientTag

  /** Minimum download speed worth judging: 50 KiB/s. */
  const DL_MIN: nat := 50 * 1024
  /** Scores at or above this ban the peer. */
  const SCORE_BAN: real := 6.0
  /** Seconds an address stays in the blocklist (passed with every block call). */
  const BAN_TIMEOUT: nat := 86400

  datatype Option<T> = None | Some(value: T)

  /**
   * One entry of aria2's `getPeers` answer.  `seeder` and `peerId` are the
   * raw JSON fields, absent when aria2 leaves them out; the speeds arrive
   * already parsed.
   */
  datatype Peer = Peer(ip: string, dl: nat, ul: nat, seeder: Option<string>, peerId: Option<AsciiString>)

  /** What the scan decides about one peer visit. */
  datatype Outcome =
    | DirectBan
    | Skip
    | Scored(tag: string, ratio: real, score: real, ban: bool)

  /** Only the exact string "true" marks a seeder. */
  predicate IsSeeder(p: Peer) {
    p.seeder == Some("true")
  }

  /** A missing seeder field, "false", or any spelling but "true" is not a seeder. */
  lemma SeederField(p: Peer)
    ensures p.seeder.None? ==> !IsSeeder(p)
    ensures p.seeder == Some("false") || p.seeder == Some("True") || p.seeder == Some("1") ==> !IsSeeder(p)
    ensures p.seeder == Some("true") ==> IsSeeder(p)
  {
    assert "false" != "true" && "True" != "true" && "1" != "true";
  }

  /** The decoded peer id; a missing id decodes as the empty one. */
  function DecodedId(p: Peer): (id: string)
    ensures p.peerId.None? ==> id == []
    ensures p.peerId.Some? ==> |id| <= |p.peerId.value|
  {
    DecodePeerId(if p.peerId.Some? then p.peerId.value else "")
  }

  /** Whether the outcome asks for a block call. */
  predicate Blocks(o: Outcome) {
    o.DirectBan? || (o.Scored? && o.ban)
  }

  /** `ul / (dl + 1)`: the `+ 1` keeps it defined for a zero download speed. */
  function Ratio(dl: nat, ul: nat): (r: real)
    ensures r >= 0.0
    ensures r * (dl + 1) as real == ul as real
    ensures r >= 1.0 <==> ul >= dl + 1
  {
    ul as real / (dl + 1) as real
  }

  /**
   * `(1 - ratio) * log2(dl + 1)`, with `log2` supplied by the caller: the
   * logarithm weighted by the share of the download not paid back by upload.
   */
  function Score(dl: nat, ul: nat, log2: real -> real): (score: real)
    ensures score * (dl + 1) as real == (dl + 1 - ul) as real * log2((dl + 1) as real)
    ensures ul == 0 ==> score == log2((dl + 1) as real)
    ensures ul == dl + 1 ==> score == 0.0
  {
    (1.0 - Ratio(dl, ul)) * log2((dl + 1) as real)
  }

  /** The body of the inner loop of `main`, without its printing and its block call. */
  function Decide(p: Peer, log2: real -> real): (o: Outcome)
    ensures o.DirectBan? <==> StartsWithXL(DecodedId(p))
    ensures o.Skip? <==> !StartsWithXL(DecodedId(p)) && (IsSeeder(p) || p.dl < DL_MIN)
    ensures o.Scored? ==>
      && p.dl >= DL_MIN
      && o.tag == ParseClientTag(DecodedId(p)) && o.tag != XL
      && o.ratio * (p.dl + 1) as real == p.ul as real
      && o.score == Score(p.dl, p.ul, log2)
      && (o.ban <==> o.score >= SCORE_BAN)
  {
    var client := ParseClientTag(DecodedId(p));
    if client == XL then DirectBan
    else if IsSeeder(p) || p.dl < DL_MIN then Skip
    else
      var ratio := Ratio(p.dl, p.ul);
      var score := (1.0 - ratio) * log2((p.dl + 1) as real);
      Scored(client, ratio, score, score >= SCORE_BAN)
  }

  // ---------------------------------------------------------------------
  // What the scoring needs of `math.log2`.  The function itself is a
  // parameter; these predicates say which facts of it a result relies on.
  // ---------------------------------------------------------------------

  /** All that the ratio rule needs: no negative logarithm from 1 up. */
  ghost predicate NonNegativeFromOne(log2: real -> real) {
    forall x :: x >= 1.0 ==> log2(x) >= 0.0
  }

  /** The base-2 logarithm's defining facts on the positive reals. */
  ghost predicate IsLog2(log2: real -> real) {
    && log2(1.0) == 0.0
    && (forall x :: x > 0.0 ==> log2(2.0 * x) == log2(x) + 1.0)
    && (forall x, y :: 0.0 < x <= y ==> log2(x) <= log2(y))
  }

  lemma Log2NonNegative(log2: real -> real)
    requires IsLog2(log2)
    ensures NonNegativeFromOne(log2)
  {
    forall x | x >= 1.0 ensures log2(x) >= 0.0 {
      assert log2(1.0) <= log2(x);
    }
  }

  function Pow2(k: nat): (r: nat)
    ensures r >= 1
  {
    if k == 0 then 1 else 2 * Pow2(k - 1)
  }

  lemma {:induction false} Pow2Add(a: nat, b: nat)
    ensures Pow2(a + b) == Pow2(a) * Pow2(b)
  {
    if a > 0 {
      Pow2Add(a - 1, b);
    }
  }

  /** The three powers of two the examples below compare with. */
  lemma Pow2Values()
    ensures Pow2(16) == 65536 && Pow2(19) == 524288 && Pow2(20) == 1048576
  {
    assert Pow2(3) == 8 && Pow2(4) == 16;
    Pow2Add(4, 4);
    Pow2Add(8, 8);
    Pow2Add(16, 3);
    Pow2Add(16, 4);
  }

  lemma {:induction false} Log2OfPow2(log2: real -> real, k: nat)
    requires IsLog2(log2)
    ensures log2(Pow2(k) as real) == k as real
  {
    if k > 0 {
      Log2OfPow2(log2, k - 1);
      var x := Pow2(k - 1) as real;
      assert Pow2(k) as real == 2.0 * x;
      assert log2(2.0 * x) == log2(x) + 1.0;
    }
  }

  /** A peer uploading at least as fast as it downloads scores at most 0. */
  lemma {:induction false} ScoreNonPositive(dl: nat, ul: nat, log2: real -> real)
    requires NonNegativeFromOne(log2)
    requires ul >= dl + 1
    ensures Score(dl, ul, log2) <= 0.0
  {
    var r, l := Ratio(dl, ul), log2((dl + 1) as real);
    assert 1.0 - r <= 0.0 && l >= 0.0;
    assert (1.0 - r) * l <= 0.0;
  }

  /** With ratio at least 1 a peer is banned only when it is an Xunlei peer. */
  lemma RatioAtLeastOneNeverScoreBanned(p: Peer, log2: real -> real)
    requires NonNegativeFromOne(log2)
    requires p.ul >= p.dl + 1
    ensures Blocks(Decide(p, log2)) <==> StartsWithXL(DecodedId(p))
  {
    ScoreNonPositive(p.dl, p.ul, log2);
  }

  /** 1 000 000 B/s down and nothing up: the score is log2(1 000 001), above 19, and bans. */
  lemma FullLeechIsBanned(log2: real -> real)
    requires IsLog2(log2)
    ensures Score(1000000, 0, log2) >= 19.0 >= SCORE_BAN
  {
    Log2OfPow2(log2, 19);
    Pow2Values();
    assert log2(524288.0) <= log2(1000001.0);
  }

  /** 1 000 000 B/s both ways: ratio just under 1, a small positive score, no ban. */
  lemma EvenTraderIsNotBanned(log2: real -> real)
    requires IsLog2(log2)
    ensures 0.0 < Score(1000000, 1000000, log2) < SCORE_BAN
  {
    Log2OfPow2(log2, 1);
    Log2OfPow2(log2, 20);
    Pow2Values();
    var l := log2(1000001.0);
    assert 1.0 <= l <= 20.0 by {
      assert log2(2.0) <= l <= log2(1048576.0);
    }
    var d := 1.0 - Ratio(1000000, 1000000);
    assert d * 1000001.0 == 1.0;
    assert 0.0 < d * l <= d * 20.0;
  }

  /** 100 000 B/s down and 1 000 B/s up: ratio about 0.01, a score above 15, a ban. */
  lemma LowUploadIsBanned(log2: real -> real)
    requires IsLog2(log2)
    ensures Score(100000, 1000, log2) >= 15.0 >= SCORE_BAN
  {
    Log2OfPow2(log2, 16);
    Pow2Values();
    var l := log2(100001.0);
    assert l >= 16.0 by {
      assert log2(65536.0) <= l;
    }
    var d := 1.0 - Ratio(100000, 1000);
    assert d * 100001.0 == 99001.0;
    assert d >= 0.95;
    assert d * l >= 0.95 * 16.0;
  }
}
