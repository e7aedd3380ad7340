/**
  The route registry: an ordered list of command routes, an optional
  fallback route and the textual command prefix, plus the fuzzy lookup that
  picks a route for a piece of text (handler.go, `Handler`, `New`, `Route`
  and `FuzzyMatch`).
 */
module Registry {
  import opened Optional
  import opened Text

  /** A registered command. The callback is identified by the route's index
      in the registry; the help text is never set by registration. */
  datatype Route = Route(pattern: string, description: string)

  datatype Handler = Handler(routes: seq<Route>, default: Option<Route>, prefix: string)

  /** What `FuzzyMatch` returns: the index of the chosen route (nil when
      None) and a slice of the text's fields. */
  datatype Match = Match(route: Option<nat>, fields: seq<string>)

  /** `New(prefix)`: no routes, no fallback. */
  function New(prefix: string): (h: Handler)
    ensures h.routes == [] && h.default.None? && h.prefix == prefix
  {
    Handler([], None, prefix)
  }

  /** `(*Handler).Route`: appends a route and returns it (as its index);
      the error it returns is always nil. */
  function AddRoute(h: Handler, pattern: string, desc: string): (res: (Handler, nat))
    ensures res.0.routes == h.routes + [Route(pattern, desc)]
    ensures res.1 == |h.routes| && res.0.routes[res.1].pattern == pattern
    ensures res.0.default == h.default && res.0.prefix == h.prefix
  {
    (h.(routes := h.routes + [Route(pattern, desc)]), |h.routes|)
  }

  // ---------------------------------------------------------------------
  // Declarative description of the match that `FuzzyMatch` selects.
  // Pairs (k, j) stand for "token k of the text against route j".
  // ---------------------------------------------------------------------

  /** Route j's pattern is exactly token k. */
  predicate IsExact(fs: seq<string>, routes: seq<Route>, k: int, j: int) {
    0 <= k < |fs| && 0 <= j < |routes| && routes[j].pattern == fs[k]
  }

  /** Token k is a prefix of route j's pattern. */
  predicate IsCandidate(fs: seq<string>, routes: seq<Route>, k: int, j: int) {
    0 <= k < |fs| && 0 <= j < |routes| && HasPrefix(routes[j].pattern, fs[k])
  }

  /** Scan order: token-major, registration-minor. */
  predicate Before(k1: int, j1: int, k2: int, j2: int) {
    k1 < k2 || (k1 == k2 && j1 < j2)
  }

  /** (k, j) is the first exact pair in scan order. */
  ghost predicate FirstExact(fs: seq<string>, routes: seq<Route>, k: int, j: int) {
    && IsExact(fs, routes, k, j)
    && forall k', j' :: Before(k', j', k, j) ==> !IsExact(fs, routes, k', j')
  }

  ghost predicate HasExact(fs: seq<string>, routes: seq<Route>) {
    exists k, j :: IsExact(fs, routes, k, j)
  }

  ghost predicate HasCandidate(fs: seq<string>, routes: seq<Route>) {
    exists k, j :: IsCandidate(fs, routes, k, j)
  }

  /** Candidate (k1, j1) beats (k2, j2): its token is longer in bytes, or
      equally long and scanned earlier. */
  predicate Outranks(fs: seq<string>, k1: int, j1: int, k2: int, j2: int) {
    && 0 <= k1 < |fs| && 0 <= k2 < |fs|
    && (|| ByteLen(fs[k1]) > ByteLen(fs[k2])
        || (ByteLen(fs[k1]) == ByteLen(fs[k2]) && Before(k1, j1, k2, j2)))
  }

  /** (k, j) is the candidate no other candidate beats. */
  ghost predicate IsBest(fs: seq<string>, routes: seq<Route>, k: int, j: int) {
    && IsCandidate(fs, routes, k, j)
    && forall k', j' :: IsCandidate(fs, routes, k', j') ==> !Outranks(fs, k', j', k, j)
  }

  // ---------------------------------------------------------------------
  // The scan, in the order the two nested loops of `FuzzyMatch` run.
  // ---------------------------------------------------------------------

  /** Outcome of scanning one token against the routes: an exact hit, or
      the updated best candidate and its rank. */
  datatype Step = Hit(route: nat) | Ranked(best: Option<nat>, rank: nat)

  /** The inner loop, from route j on, for token tok. */
  function ScanRoutes(routes: seq<Route>, tok: string, j: nat, best: Option<nat>, rank: nat): (st: Step)
    requires j <= |routes|
    decreases |routes| - j
  {
    if j == |routes| then Ranked(best, rank)
    else if routes[j].pattern == tok then Hit(j)
    else if HasPrefix(routes[j].pattern, tok) && ByteLen(tok) > rank then
      ScanRoutes(routes, tok, j + 1, Some(j), ByteLen(tok))
    else ScanRoutes(routes, tok, j + 1, best, rank)
  }

  /** The outer loop, from token k on. Without an exact hit the slice
      returned is `fields[fk:]` for the OUTER `fk`, which the loop's own `fk`
      shadows and which therefore stays 0: the whole field list. */
  function ScanFields(routes: seq<Route>, fs: seq<string>, k: nat, best: Option<nat>, rank: nat): (m: Match)
    requires k <= |fs|
    decreases |fs| - k
  {
    if k == |fs| then Match(best, fs[0..])
    else match ScanRoutes(routes, fs[k], 0, best, rank)
      case Hit(j) => Match(Some(j), fs[k..])
      case Ranked(b, r) => ScanFields(routes, fs, k + 1, b, r)
  }

  /** The two nested loops of `(*Handler).FuzzyMatch`, run over the
      message's fields: a valid route or none, and a suffix of the fields
      that is empty only when there are no fields at all. */
  function MatchFields(routes: seq<Route>, fs: seq<string>): (m: Match)
    ensures m.route.Some? ==> m.route.value < |routes|
    ensures |m.fields| <= |fs| && m.fields == fs[|fs| - |m.fields|..]
    ensures m.fields == [] <==> fs == []
    ensures fs == [] ==> m.route.None?
  {
    if fs == [] then Match(None, [])
    else
      ScanFieldsShape(routes, fs, 0, None, 0);
      ScanFields(routes, fs, 0, None, 0)
  }

  /** `(*Handler).FuzzyMatch`: split the message on white space, then scan. */
  function FuzzyMatch(h: Handler, msg: string): (m: Match)
    ensures m.route.Some? ==> m.route.value < |h.routes|
    ensures m.fields == [] <==> AllSpace(msg)
    ensures AllSpace(msg) ==> m.route.None?
  {
    MatchFields(h.routes, Fields(msg))
  }

  // ---------------------------------------------------------------------
  // Proofs that the scan selects what the declarative description says.
  // ---------------------------------------------------------------------

  /** The inner loop's hit is a route whose pattern is the token, and the
      best candidate it carries stays a valid index. */
  lemma {:induction false} ScanRoutesIndex(routes: seq<Route>, tok: string, j: nat, best: Option<nat>, rank: nat)
    requires j <= |routes|
    requires best.Some? ==> best.value < |routes|
    ensures var st := ScanRoutes(routes, tok, j, best, rank);
      && (st.Hit? ==> st.route < |routes| && routes[st.route].pattern == tok)
      && (st.Ranked? && st.best.Some? ==> st.best.value < |routes|)
    decreases |routes| - j
  {
    if j < |routes| && routes[j].pattern != tok {
      if HasPrefix(routes[j].pattern, tok) && ByteLen(tok) > rank {
        ScanRoutesIndex(routes, tok, j + 1, Some(j), ByteLen(tok));
      } else {
        ScanRoutesIndex(routes, tok, j + 1, best, rank);
      }
    }
  }

  /** The outer loop returns a valid route or none and a suffix of the
      fields: either all of them, or the tail that starts with the pattern
      of the route that hit exactly. */
  lemma {:induction false} ScanFieldsShape(routes: seq<Route>, fs: seq<string>, k: nat, best: Option<nat>, rank: nat)
    requires k <= |fs|
    requires best.Some? ==> best.value < |routes|
    ensures var m := ScanFields(routes, fs, k, best, rank);
      && (m.route.Some? ==> m.route.value < |routes|)
      && |m.fields| <= |fs| && m.fields == fs[|fs| - |m.fields|..]
      && (fs != [] ==> m.fields != [])
      && (|| m.fields == fs
          || (m.route.Some? && m.fields != [] && m.fields[0] == routes[m.route.value].pattern))
    decreases |fs| - k
  {
    if k < |fs| {
      ScanRoutesIndex(routes, fs[k], 0, best, rank);
      match ScanRoutes(routes, fs[k], 0, best, rank)
      case Hit(j) =>
        assert fs[|fs| - |fs[k..]|..] == fs[k..] && fs[k..][0] == fs[k];
      case Ranked(b, r) =>
        ScanFieldsShape(routes, fs, k + 1, b, r);
    }
  }

  /** A token with no exact route from j on passes through the inner loop. */
  lemma {:induction false} ScanRoutesMiss(routes: seq<Route>, tok: string, j: nat, best: Option<nat>, rank: nat)
    requires j <= |routes|
    requires forall j' :: j <= j' < |routes| ==> routes[j'].pattern != tok
    ensures ScanRoutes(routes, tok, j, best, rank).Ranked?
    decreases |routes| - j
  {
    if j < |routes| {
      if HasPrefix(routes[j].pattern, tok) && ByteLen(tok) > rank {
        ScanRoutesMiss(routes, tok, j + 1, Some(j), ByteLen(tok));
      } else {
        ScanRoutesMiss(routes, tok, j + 1, best, rank);
      }
    }
  }

  /** The inner loop stops at the first route whose pattern is the token. */
  lemma {:induction false} ScanRoutesHit(routes: seq<Route>, tok: string, j: nat, best: Option<nat>, rank: nat, jx: nat)
    requires j <= jx < |routes| && routes[jx].pattern == tok
    requires forall j' :: j <= j' < jx ==> routes[j'].pattern != tok
    ensures ScanRoutes(routes, tok, j, best, rank) == Hit(jx)
    decreases jx - j
  {
    if j < jx {
      if HasPrefix(routes[j].pattern, tok) && ByteLen(tok) > rank {
        ScanRoutesHit(routes, tok, j + 1, Some(j), ByteLen(tok), jx);
      } else {
        ScanRoutesHit(routes, tok, j + 1, best, rank, jx);
      }
    }
  }

  lemma {:induction false} ScanFieldsExact(routes: seq<Route>, fs: seq<string>, k: nat, best: Option<nat>, rank: nat, kx: nat, jx: nat)
    requires k <= kx && FirstExact(fs, routes, kx, jx)
    ensures ScanFields(routes, fs, k, best, rank) == Match(Some(jx), fs[kx..])
    decreases |fs| - k
  {
    if k < kx {
      forall j' | 0 <= j' < |routes| ensures routes[j'].pattern != fs[k] {
        assert Before(k, j', kx, jx);
        assert !IsExact(fs, routes, k, j');
      }
      ScanRoutesMiss(routes, fs[k], 0, best, rank);
      var st := ScanRoutes(routes, fs[k], 0, best, rank);
      ScanFieldsExact(routes, fs, k + 1, st.best, st.rank, kx, jx);
    } else {
      forall j' | 0 <= j' < jx ensures routes[j'].pattern != fs[k] {
        assert Before(k, j', kx, jx);
        assert !IsExact(fs, routes, k, j');
      }
      ScanRoutesHit(routes, fs[k], 0, best, rank, jx);
    }
  }

  /** If some token names a route exactly, a first such pair exists. */
  lemma {:induction false} FirstExactFrom(fs: seq<string>, routes: seq<Route>, k: nat, j: nat) returns (kx: nat, jx: nat)
    requires k < |fs| && j <= |routes|
    requires HasExact(fs, routes)
    requires forall k', j' :: Before(k', j', k, j) ==> !IsExact(fs, routes, k', j')
    ensures FirstExact(fs, routes, kx, jx)
    decreases |fs| - k, |routes| - j
  {
    if j == |routes| {
      var a, b :| IsExact(fs, routes, a, b);
      assert !Before(a, b, k, j);
      forall k', j' | Before(k', j', k + 1, 0) ensures !IsExact(fs, routes, k', j') {
        if IsExact(fs, routes, k', j') { assert Before(k', j', k, j); }
      }
      kx, jx := FirstExactFrom(fs, routes, k + 1, 0);
    } else if IsExact(fs, routes, k, j) {
      kx, jx := k, j;
    } else {
      forall k', j' | Before(k', j', k, j + 1) ensures !IsExact(fs, routes, k', j') {
        if k' == k && j' == j {
        } else {
          assert Before(k', j', k, j);
        }
      }
      kx, jx := FirstExactFrom(fs, routes, k, j + 1);
    }
  }

  /** An exact hit wins: the result is the first exact pair in scan order
      and the returned fields start at its token, so the first returned
      field is the route's pattern. */
  lemma FuzzyMatchExact(h: Handler, msg: string) returns (kx: nat, jx: nat)
    requires HasExact(Fields(msg), h.routes)
    ensures FirstExact(Fields(msg), h.routes, kx, jx)
    ensures FuzzyMatch(h, msg) == Match(Some(jx), Fields(msg)[kx..])
    ensures FuzzyMatch(h, msg).fields[0] == h.routes[jx].pattern
  {
    var fs := Fields(msg);
    var a, b :| IsExact(fs, h.routes, a, b);
    kx, jx := FirstExactFrom(fs, h.routes, 0, 0);
    ScanFieldsExact(h.routes, fs, 0, None, 0, kx, jx);
  }

  /** The scan state (best, rank) summarises the candidates scanned before
      (k, j); bk is the token of the current best. */
  ghost predicate RankInv(fs: seq<string>, routes: seq<Route>, k: int, j: int, best: Option<nat>, rank: nat, bk: nat) {
    && (best.None? ==>
          && rank == 0
          && forall k', j' :: IsCandidate(fs, routes, k', j') ==> !Before(k', j', k, j))
    && (best.Some? ==>
          && IsCandidate(fs, routes, bk, best.value)
          && Before(bk, best.value, k, j)
          && rank == ByteLen(fs[bk])
          && forall k', j' :: IsCandidate(fs, routes, k', j') && Before(k', j', k, j) ==>
               !Outranks(fs, k', j', bk, best.value))
  }

  /** Scanning one more route of the current token keeps the invariant:
      the state moves to that route exactly when it is a candidate whose
      token outranks the best so far. */
  lemma RankInvStep(fs: seq<string>, routes: seq<Route>, k: nat, j: nat, best: Option<nat>, rank: nat, bk: nat)
    returns (best': Option<nat>, rank': nat, bk': nat)
    requires k < |fs| && j < |routes| && IsToken(fs[k]) && routes[j].pattern != fs[k]
    requires RankInv(fs, routes, k, j, best, rank, bk)
    ensures (best', rank') ==
      if HasPrefix(routes[j].pattern, fs[k]) && ByteLen(fs[k]) > rank then (Some(j), ByteLen(fs[k]))
      else (best, rank)
    ensures ScanRoutes(routes, fs[k], j, best, rank) == ScanRoutes(routes, fs[k], j + 1, best', rank')
    ensures RankInv(fs, routes, k, j + 1, best', rank', bk')
  {
    if HasPrefix(routes[j].pattern, fs[k]) && ByteLen(fs[k]) > rank {
      assert IsCandidate(fs, routes, k, j);
      best', rank', bk' := Some(j), ByteLen(fs[k]), k;
    } else {
      best', rank', bk' := best, rank, bk;
    }
  }

  /** Finishing the routes of token k is starting token k + 1. */
  lemma RankInvNextToken(fs: seq<string>, routes: seq<Route>, k: nat, best: Option<nat>, rank: nat, bk: nat)
    requires RankInv(fs, routes, k, |routes|, best, rank, bk)
    ensures RankInv(fs, routes, k + 1, 0, best, rank, bk)
  {
    assert forall k', j' :: Before(k', j', k + 1, 0) && 0 <= j' < |routes| ==> Before(k', j', k, |routes|);
  }

  lemma {:induction false} ScanRoutesRanks(fs: seq<string>, routes: seq<Route>, k: nat, j: nat, best: Option<nat>, rank: nat, bk: nat)
    returns (bk': nat)
    requires k < |fs| && j <= |routes| && IsToken(fs[k])
    requires forall j' :: j <= j' < |routes| ==> routes[j'].pattern != fs[k]
    requires RankInv(fs, routes, k, j, best, rank, bk)
    ensures var st := ScanRoutes(routes, fs[k], j, best, rank);
      st.Ranked? && RankInv(fs, routes, k + 1, 0, st.best, st.rank, bk')
    decreases |routes| - j
  {
    if j == |routes| {
      bk' := bk;
      RankInvNextToken(fs, routes, k, best, rank, bk);
    } else {
      var b, r, bk1 := RankInvStep(fs, routes, k, j, best, rank, bk);
      bk' := ScanRoutesRanks(fs, routes, k, j + 1, b, r, bk1);
    }
  }

  /** Once every token is scanned, the state names the best candidate, or
      none when there is no candidate at all. */
  lemma RankInvAtEnd(fs: seq<string>, routes: seq<Route>, best: Option<nat>, rank: nat, bk: nat)
    requires RankInv(fs, routes, |fs|, 0, best, rank, bk)
    ensures best.None? <==> !HasCandidate(fs, routes)
    ensures best.Some? ==> IsBest(fs, routes, bk, best.value)
  {
    if best.None? {
      forall k', j' ensures !IsCandidate(fs, routes, k', j') {
        if IsCandidate(fs, routes, k', j') { assert Before(k', j', |fs|, 0); }
      }
    } else {
      forall k', j' | IsCandidate(fs, routes, k', j') ensures !Outranks(fs, k', j', bk, best.value) {
        assert Before(k', j', |fs|, 0);
      }
    }
  }

  /** Without an exact pair, no route's pattern is token k. */
  lemma NoExactAtToken(fs: seq<string>, routes: seq<Route>, k: nat)
    requires k < |fs| && !HasExact(fs, routes)
    ensures forall j' :: 0 <= j' < |routes| ==> routes[j'].pattern != fs[k]
  {
    forall j' | 0 <= j' < |routes| ensures routes[j'].pattern != fs[k] {
      assert !IsExact(fs, routes, k, j');
    }
  }

  /** After the last token the outer loop returns the whole field list and
      the state it carries, which the invariant makes the best candidate. */
  lemma ScanFieldsAtEnd(fs: seq<string>, routes: seq<Route>, best: Option<nat>, rank: nat, bk: nat)
    requires RankInv(fs, routes, |fs|, 0, best, rank, bk)
    ensures ScanFields(routes, fs, |fs|, best, rank) == Match(best, fs)
    ensures best.None? <==> !HasCandidate(fs, routes)
    ensures best.Some? ==> IsBest(fs, routes, bk, best.value)
  {
    assert fs[0..] == fs;
    RankInvAtEnd(fs, routes, best, rank, bk);
  }

  lemma {:induction false} ScanFieldsRanks(fs: seq<string>, routes: seq<Route>, k: nat, best: Option<nat>, rank: nat, bk: nat)
    returns (wk: nat)
    requires k <= |fs|
    requires forall t :: 0 <= t < |fs| ==> IsToken(fs[t])
    requires !HasExact(fs, routes)
    requires RankInv(fs, routes, k, 0, best, rank, bk)
    ensures var m := ScanFields(routes, fs, k, best, rank);
      && m.fields == fs
      && (m.route.None? <==> !HasCandidate(fs, routes))
      && (m.route.Some? ==> IsBest(fs, routes, wk, m.route.value))
    decreases |fs| - k
  {
    if k == |fs| {
      wk := bk;
      ScanFieldsAtEnd(fs, routes, best, rank, bk);
    } else {
      NoExactAtToken(fs, routes, k);
      var bk' := ScanRoutesRanks(fs, routes, k, 0, best, rank, bk);
      var st := ScanRoutes(routes, fs[k], 0, best, rank);
      assert ScanFields(routes, fs, k, best, rank) == ScanFields(routes, fs, k + 1, st.best, st.rank);
      wk := ScanFieldsRanks(fs, routes, k + 1, st.best, st.rank, bk');
    }
  }

  /** Without an exact hit: the returned fields are the whole field list;
      the route is nil iff no pattern starts with any token; otherwise it is
      the candidate with the longest token (in bytes), ties going to the
      earliest token and then the earliest registered route. */
  lemma FuzzyMatchRanked(h: Handler, msg: string) returns (wk: nat)
    requires !HasExact(Fields(msg), h.routes)
    ensures FuzzyMatch(h, msg).fields == Fields(msg)
    ensures FuzzyMatch(h, msg).route.None? <==> !HasCandidate(Fields(msg), h.routes)
    ensures FuzzyMatch(h, msg).route.Some? ==> IsBest(Fields(msg), h.routes, wk, FuzzyMatch(h, msg).route.value)
  {
    var fs := Fields(msg);
    wk := 0;
    if fs != [] {
      assert RankInv(fs, h.routes, 0, 0, None, 0, 0);
      wk := ScanFieldsRanks(fs, h.routes, 0, None, 0, 0);
      assert FuzzyMatch(h, msg) == ScanFields(h.routes, fs, 0, None, 0);
    } else {
      assert FuzzyMatch(h, msg) == Match(None, []);
      assert !HasCandidate(fs, h.routes);
    }
  }

  /** The best candidate is unique, so `IsBest` pins the route down. */
  lemma BestIsUnique(fs: seq<string>, routes: seq<Route>, k1: int, j1: int, k2: int, j2: int)
    requires IsBest(fs, routes, k1, j1) && IsBest(fs, routes, k2, j2)
    ensures k1 == k2 && j1 == j2
  {
  }

  /** A registered command is reachable by its exact name: once a pattern
      that no earlier route uses is registered, typing it selects the new
      route with the pattern as the only field. */
  lemma RegisteredPatternMatches(h: Handler, pattern: string, desc: string)
    requires IsToken(pattern)
    requires forall j :: 0 <= j < |h.routes| ==> h.routes[j].pattern != pattern
    ensures FuzzyMatch(AddRoute(h, pattern, desc).0, pattern) == Match(Some(|h.routes|), [pattern])
  {
    var routes := AddRoute(h, pattern, desc).0.routes;
    FieldsOfToken(pattern);
    var fs := [pattern];
    assert IsExact(fs, routes, 0, |h.routes|);
    forall k', j' | Before(k', j', 0, |h.routes|) ensures !IsExact(fs, routes, k', j') {
    }
    ScanFieldsExact(routes, fs, 0, None, 0, 0, |h.routes|);
  }

  /** For a one-token text that names no route exactly, the earliest
      registered route whose pattern extends the token wins, however many
      later ones also extend it. */
  lemma SingleTokenGoesToFirstExtension(h: Handler, tok: string, j0: nat)
    requires IsToken(tok)
    requires j0 < |h.routes| && HasPrefix(h.routes[j0].pattern, tok)
    requires forall j :: 0 <= j < j0 ==> !HasPrefix(h.routes[j].pattern, tok)
    requires forall j :: 0 <= j < |h.routes| ==> h.routes[j].pattern != tok
    ensures FuzzyMatch(h, tok) == Match(Some(j0), [tok])
  {
    FieldsOfToken(tok);
    var fs := [tok];
    assert !HasExact(fs, h.routes) by {
      forall k, j ensures !IsExact(fs, h.routes, k, j) {
      }
    }
    assert IsCandidate(fs, h.routes, 0, j0);
    var wk := FuzzyMatchRanked(h, tok);
    var m := FuzzyMatch(h, tok);
    assert IsBest(fs, h.routes, 0, j0) by {
      forall k', j' | IsCandidate(fs, h.routes, k', j') ensures !Outranks(fs, k', j', 0, j0) {
        assert k' == 0 && !Before(k', j', 0, j0);
      }
    }
    BestIsUnique(fs, h.routes, wk, m.route.value, 0, j0);
  }

  /** With routes "help" then "hello", typing "he" selects "help". */
  lemma EqualRankGoesToFirstRegistered()
    ensures FuzzyMatch(Handler([Route("help", ""), Route("hello", "")], None, ""), "he")
         == Match(Some(0), ["he"])
  {
    var h := Handler([Route("help", ""), Route("hello", "")], None, "");
    assert "help"[..2] == "he";
    SingleTokenGoesToFirstExtension(h, "he", 0);
  }

  /** An exact hit keeps the matched token: "help now" against "help" gives
      the fields "help" and "now". */
  lemma ExactMatchKeepsToken()
    ensures FuzzyMatch(Handler([Route("help", "")], None, ""), "help now")
         == Match(Some(0), ["help", "now"])
  {
    var h := Handler([Route("help", "")], None, "");
    var fs := ["help", "now"];
    assert JoinWords(fs) == "help now";
    FieldsOfJoinWords(fs);
    assert IsExact(fs, h.routes, 0, 0);
    var kx, jx := FuzzyMatchExact(h, "help now");
    assert fs[0..] == fs;
  }

  /** A prefix hit on the second of two tokens returns both fields, not
      the tail that starts at the matched token. */
  lemma SecondTokenHitReturnsBothFields(h: Handler, t0: string, t1: string, j0: nat)
    requires IsToken(t0) && IsToken(t1)
    requires forall j :: 0 <= j < |h.routes| ==> h.routes[j].pattern != t0 && h.routes[j].pattern != t1
    requires forall j :: 0 <= j < |h.routes| ==> !HasPrefix(h.routes[j].pattern, t0)
    requires j0 < |h.routes| && HasPrefix(h.routes[j0].pattern, t1)
    requires forall j :: 0 <= j < j0 ==> !HasPrefix(h.routes[j].pattern, t1)
    ensures FuzzyMatch(h, t0 + " " + t1) == Match(Some(j0), [t0, t1])
  {
    var msg := t0 + " " + t1;
    FieldsAfterToken(t0, t1);
    FieldsOfToken(t1);
    var fs := [t0, t1];
    assert Fields(msg) == fs;
    assert !HasExact(fs, h.routes) by {
      forall k, j ensures !IsExact(fs, h.routes, k, j) {
      }
    }
    assert IsCandidate(fs, h.routes, 1, j0);
    var wk := FuzzyMatchRanked(h, msg);
    var m := FuzzyMatch(h, msg);
    assert IsBest(fs, h.routes, 1, j0) by {
      forall k', j' | IsCandidate(fs, h.routes, k', j') ensures !Outranks(fs, k', j', 1, j0) {
        assert k' == 1 && !Before(k', j', 1, j0);
      }
    }
    BestIsUnique(fs, h.routes, wk, m.route.value, 1, j0);
  }

  /** "now he" against "help" gives the fields "now" and "he". */
  lemma PrefixMatchKeepsAllFields()
    ensures FuzzyMatch(Handler([Route("help", "")], None, ""), "now he")
         == Match(Some(0), ["now", "he"])
  {
    assert "now" + " " + "he" == "now he";
    assert "help"[..2] == "he";
    assert !HasPrefix("help", "now") by { assert "help"[..3][0] != "now"[0]; }
    SecondTokenHitReturnsBothFields(Handler([Route("help", "")], None, ""), "now", "he", 0);
  }

  /** The nested loops of `FuzzyMatch`, statement for statement. */
  method FuzzyMatchLoop(h: Handler, msg: string) returns (route: Option<nat>, fields: seq<string>)
    ensures Match(route, fields) == FuzzyMatch(h, msg)
  {
    var fs := Fields(msg);
    if |fs| == 0 {
      return None, [];
    }
    var best: Option<nat> := None;
    var rank: nat := 0;
    var fk := 0;  // the loop below declares its own index; this one stays 0
    var k := 0;
    while k < |fs|
      invariant k <= |fs|
      invariant ScanFields(h.routes, fs, k, best, rank) == ScanFields(h.routes, fs, 0, None, 0)
    {
      var tok := fs[k];
      var j := 0;
      ghost var st := ScanRoutes(h.routes, tok, 0, best, rank);
      while j < |h.routes|
        invariant j <= |h.routes|
        invariant ScanRoutes(h.routes, tok, j, best, rank) == st
      {
        var rv := h.routes[j];
        if rv.pattern == tok {
          return Some(j), fs[k..];
        }
        if HasPrefix(rv.pattern, tok) && ByteLen(tok) > rank {
          best, rank := Some(j), ByteLen(tok);
        }
        j := j + 1;
      }
      k := k + 1;
    }
    return best, fs[fk..];
  }
}
