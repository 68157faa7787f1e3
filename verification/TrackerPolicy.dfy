/**
  Removing disallowed trackers and web seeds from a torrent's metadata. What a
  valid URL is stays a parameter: `norm` gives its normal form, or None.
 */
module TrackerPolicy {
  import opened Bytes
  import opened Wrappers

  /** A value as found in the metadata, and a URL in normal form. */
  type Raw = nat
  type Url = nat

  const MAX_TRACKERS: nat := 32
  const MAX_WEB_SEEDS: nat := 16

  // ---------------------------------------------------------------- the flat specification

  /** The valid items whose URL was not seen before, in order. */
  function Firsts<T>(norm: T -> Option<Url>, items: seq<T>, seen: set<Url>): seq<T>
    decreases |items|
  {
    if items == [] then []
    else
      var url := norm(items[0]);
      if url.Some? && url.value !in seen then [items[0]] + Firsts(norm, items[1..], seen + {url.value})
      else Firsts(norm, items[1..], seen)
  }

  ghost function Urls<T>(norm: T -> Option<Url>, items: seq<T>): set<Url> {
    set i | 0 <= i < |items| && norm(items[i]).Some? :: norm(items[i]).value
  }

  /** The first `limit` distinct valid items among the first 4 * limit candidates. */
  function Spec<T>(norm: T -> Option<Url>, items: seq<T>, limit: nat): (r: seq<T>)
    ensures |r| <= limit
  {
    Take(Firsts(norm, Take(items, 4 * limit), {}), limit)
  }

  function Take<T>(s: seq<T>, n: nat): (r: seq<T>)
    ensures |r| == Min(|s|, n)
  {
    if |s| <= n then s else s[..n]
  }

  lemma {:induction false} FirstsSnoc<T>(norm: T -> Option<Url>, items: seq<T>, x: T, seen: set<Url>)
    ensures Firsts(norm, items + [x], seen)
         == Firsts(norm, items, seen)
            + (if norm(x).Some? && norm(x).value !in seen + Urls(norm, Firsts(norm, items, seen)) then [x] else [])
    decreases |items|
  {
    if items == [] {
      assert [x][1..] == [] && items + [x] == [x];
      assert Urls(norm, []) == {};
    } else {
      assert (items + [x])[1..] == items[1..] + [x];
      var url := norm(items[0]);
      if url.Some? && url.value !in seen {
        FirstsSnoc(norm, items[1..], x, seen + {url.value});
        var rest := Firsts(norm, items[1..], seen + {url.value});
        UrlsCons(norm, items[0], rest);
        assert seen + {url.value} + Urls(norm, rest) == seen + Urls(norm, [items[0]] + rest);
      } else {
        FirstsSnoc(norm, items[1..], x, seen);
      }
    }
  }

  lemma UrlsCons<T>(norm: T -> Option<Url>, x: T, rest: seq<T>)
    requires norm(x).Some?
    ensures Urls(norm, [x] + rest) == {norm(x).value} + Urls(norm, rest)
  {
    var all := [x] + rest;
    forall u | u in {norm(x).value} + Urls(norm, rest)
      ensures u in Urls(norm, all)
    {
      if u == norm(x).value {
        assert all[0] == x;
      } else {
        var i :| 0 <= i < |rest| && norm(rest[i]).Some? && norm(rest[i]).value == u;
        assert all[i + 1] == rest[i];
      }
    }
  }

  lemma UrlsSnoc<T>(norm: T -> Option<Url>, items: seq<T>, x: T)
    requires norm(x).Some?
    ensures Urls(norm, items + [x]) == Urls(norm, items) + {norm(x).value}
  {
    var all := items + [x];
    forall u | u in Urls(norm, items) + {norm(x).value}
      ensures u in Urls(norm, all)
    {
      if u == norm(x).value {
        assert all[|items|] == x;
      } else {
        var i :| 0 <= i < |items| && norm(items[i]).Some? && norm(items[i]).value == u;
        assert all[i] == items[i];
      }
    }
  }

  /** All valid, and no URL twice. */
  ghost predicate Clean<T>(norm: T -> Option<Url>, items: seq<T>) {
    && (forall i :: 0 <= i < |items| ==> norm(items[i]).Some?)
    && forall i, j :: 0 <= i < j < |items| ==> norm(items[i]) != norm(items[j])
  }

  lemma {:induction false} FirstsClean<T>(norm: T -> Option<Url>, items: seq<T>, seen: set<Url>)
    ensures Clean(norm, Firsts(norm, items, seen))
    ensures forall i :: 0 <= i < |Firsts(norm, items, seen)| ==> norm(Firsts(norm, items, seen)[i]).value !in seen
    decreases |items|
  {
    if items != [] {
      var url := norm(items[0]);
      if url.Some? && url.value !in seen {
        FirstsClean(norm, items[1..], seen + {url.value});
      } else {
        FirstsClean(norm, items[1..], seen);
      }
    }
  }

  lemma SpecClean<T>(norm: T -> Option<Url>, items: seq<T>, limit: nat)
    ensures Clean(norm, Spec(norm, items, limit))
  {
    FirstsClean(norm, Take(items, 4 * limit), {});
  }

  /** A clean list within the limits is its own filtering. */
  lemma {:induction false} FirstsOfClean<T>(norm: T -> Option<Url>, items: seq<T>, seen: set<Url>)
    requires Clean(norm, items) && forall i :: 0 <= i < |items| ==> norm(items[i]).value !in seen
    ensures Firsts(norm, items, seen) == items
    decreases |items|
  {
    if items != [] {
      var url := norm(items[0]);
      forall i | 0 <= i < |items| - 1
        ensures norm(items[1..][i]).value !in seen + {url.value}
      {
        assert norm(items[0]) != norm(items[i + 1]);
      }
      FirstsOfClean(norm, items[1..], seen + {url.value});
    }
  }

  lemma SpecOfClean<T>(norm: T -> Option<Url>, items: seq<T>, limit: nat)
    requires Clean(norm, items) && |items| <= limit
    ensures Spec(norm, items, limit) == items
  {
    FirstsOfClean(norm, items, {});
  }

  /** The loops' exit tests: once either limit is reached, more candidates change nothing. */
  lemma {:induction false} SpecSaturated<T>(norm: T -> Option<Url>, items: seq<T>, more: seq<T>, limit: nat)
    requires |Spec(norm, items, limit)| >= limit || |items| >= 4 * limit
    ensures Spec(norm, items + more, limit) == Spec(norm, items, limit)
    decreases |more|
  {
    if more == [] {
      assert items + more == items;
    } else {
      var n := |more| - 1;
      SpecSaturated(norm, items, more[..n], limit);
      var front := items + more[..n];
      assert items + more == front + [more[n]];
      if |front| >= 4 * limit {
        assert Take(front + [more[n]], 4 * limit) == Take(front, 4 * limit);
      } else {
        assert Take(front, 4 * limit) == front && Take(front + [more[n]], 4 * limit) == front + [more[n]];
        FirstsSnoc(norm, front, more[n], {});
      }
    }
  }

  /** One candidate within the limits: accepted exactly if it is valid and its URL is new. */
  lemma SpecStep<T>(norm: T -> Option<Url>, items: seq<T>, x: T, limit: nat)
    requires |Spec(norm, items, limit)| < limit && |items| < 4 * limit
    ensures Spec(norm, items + [x], limit)
         == Spec(norm, items, limit)
            + (if norm(x).Some? && norm(x).value !in Urls(norm, Spec(norm, items, limit)) then [x] else [])
  {
    assert Take(items, 4 * limit) == items && Take(items + [x], 4 * limit) == items + [x];
    FirstsSnoc(norm, items, x, {});
    assert {} + Urls(norm, Firsts(norm, items, {})) == Urls(norm, Firsts(norm, items, {}));
  }

  // ---------------------------------------------------------------- flat filters

  /** filter_network_urls */
  method FilterNetworkUrls(norm: Raw -> Option<Url>, values: seq<Raw>, limit: nat) returns (accepted: seq<Raw>)
    ensures accepted == Spec(norm, values, limit)
  {
    accepted := [];
    var seen: set<Url> := {};
    var index := 0;
    assert values[..0] == [];
    while index < |values|
      invariant 0 <= index <= |values|
      invariant accepted == Spec(norm, values[..index], limit)
      invariant seen == Urls(norm, accepted)
    {
      assert values == values[..index] + values[index..];
      if |accepted| >= limit || index >= limit * 4 {
        SpecSaturated(norm, values[..index], values[index..], limit);
        return;
      }
      var value := values[index];
      SpecStep(norm, values[..index], value, limit);
      assert values[..index + 1] == values[..index] + [value];
      var url := norm(value);
      if url.Some? && url.value !in seen {
        UrlsSnoc(norm, accepted, value);
        seen := seen + {url.value};
        accepted := accepted + [value];
      }
      index := index + 1;
    }
    assert values[..index] == values;
  }

  /** A tracker with its tier; a missing tier or one outside a byte is tier 0. */
  function TierOf(tiers: seq<Option<int>>, index: nat): int {
    if index < |tiers| && tiers[index].Some? && 0 <= tiers[index].value <= 255 then tiers[index].value else 0
  }

  function WithTiers(trackers: seq<Raw>, tiers: seq<Option<int>>): (r: seq<(Raw, int)>)
    ensures |r| == |trackers|
  {
    seq(|trackers|, i requires 0 <= i < |trackers| => (trackers[i], TierOf(tiers, i)))
  }

  /** The tier belongs to that tracker: the one given at its place if that is from 0 to 255, else 0. */
  ghost predicate HasItsTier(trackers: seq<Raw>, tiers: seq<Option<int>>, tracker: Raw, tier: int) {
    exists j :: 0 <= j < |trackers| && trackers[j] == tracker && IsTierAt(tiers, j, tier)
  }

  ghost predicate IsTierAt(tiers: seq<Option<int>>, j: int, tier: int)
    requires j >= 0
  {
    if j < |tiers| && tiers[j].Some? && 0 <= tiers[j].value <= 255 then tier == tiers[j].value else tier == 0
  }

  lemma NothingAccepted<T>(norm: T -> Option<Url>)
    ensures Spec(norm, [], MAX_TRACKERS) == [] && Urls(norm, []) == {}
  {
  }

  lemma HasTier(trackers: seq<Raw>, tiers: seq<Option<int>>, j: nat, tier: int)
    requires j < |trackers| && IsTierAt(tiers, j, tier)
    ensures HasItsTier(trackers, tiers, trackers[j], tier)
  {
  }

  function NormFirst(norm: Raw -> Option<Url>): ((Raw, int)) -> Option<Url> { (p: (Raw, int)) => norm(p.0) }

  /** filter_tracker_tiers: the parallel lists stay parallel. */
  method FilterTrackerTiers(norm: Raw -> Option<Url>, trackers: seq<Raw>, tiers: seq<Option<int>>)
    returns (acceptedTrackers: seq<Raw>, acceptedTiers: seq<int>)
    ensures |acceptedTrackers| == |acceptedTiers|
    ensures seq(|acceptedTrackers|, i requires 0 <= i < |acceptedTrackers| => (acceptedTrackers[i], acceptedTiers[i]))
         == Spec(NormFirst(norm), WithTiers(trackers, tiers), 32)
    ensures forall i :: 0 <= i < |acceptedTrackers| ==> HasItsTier(trackers, tiers, acceptedTrackers[i], acceptedTiers[i])
  {
    hide Spec, Urls, HasItsTier;
    acceptedTrackers, acceptedTiers := [], [];
    var seen: set<Url> := {};
    ghost var both := WithTiers(trackers, tiers);
    ghost var accepted: seq<(Raw, int)> := [];
    ghost var pairNorm := NormFirst(norm);
    var index := 0;
    assert both[..0] == [];
    NothingAccepted(pairNorm);
    while index < |trackers|
      invariant 0 <= index <= |trackers|
      invariant accepted == Spec(pairNorm, both[..index], MAX_TRACKERS)
      invariant seen == Urls(pairNorm, accepted)
      invariant |accepted| == |acceptedTrackers| == |acceptedTiers|
      invariant forall i :: 0 <= i < |accepted| ==> accepted[i] == (acceptedTrackers[i], acceptedTiers[i])
      invariant forall i :: 0 <= i < |accepted| ==> HasItsTier(trackers, tiers, acceptedTrackers[i], acceptedTiers[i])
    {
      assert both == both[..index] + both[index..];
      if |acceptedTrackers| >= MAX_TRACKERS || index >= MAX_TRACKERS * 4 {
        SpecSaturated(pairNorm, both[..index], both[index..], MAX_TRACKERS);
        break;
      }
      var value := trackers[index];
      SpecStep(pairNorm, both[..index], both[index], MAX_TRACKERS);
      assert both[..index + 1] == both[..index] + [both[index]];
      var url := norm(value);
      if url.Some? && url.value !in seen {
        var tier := if index < |tiers| && tiers[index].Some? then tiers[index].value else 0;
        if !(0 <= tier <= 255) {
          tier := 0;
        }
        UrlsSnoc(pairNorm, accepted, both[index]);
        HasTier(trackers, tiers, index, tier);
        seen := seen + {url.value};
        acceptedTrackers := acceptedTrackers + [value];
        acceptedTiers := acceptedTiers + [tier];
        accepted := accepted + [both[index]];
      }
      index := index + 1;
    }
    assert index == |trackers| ==> both[..index] == both;
  }

  // ---------------------------------------------------------------- tiers of trackers

  /** An element of announce-list: a list of values, or something else, which is skipped. */
  datatype Tier = NotAList | Tier(values: seq<Raw>)

  function Flatten(tiers: seq<seq<Raw>>): seq<Raw> {
    if tiers == [] then [] else Flatten(tiers[..|tiers| - 1]) + tiers[|tiers| - 1]
  }

  function Values(tier: Tier): seq<Raw> { if tier.Tier? then tier.values else [] }

  function Candidates(tiers: seq<Tier>): seq<Raw> {
    if tiers == [] then [] else Candidates(tiers[..|tiers| - 1]) + Values(tiers[|tiers| - 1])
  }

  ghost predicate SubSequence(a: seq<Raw>, b: seq<Raw>)
    decreases |b|
  {
    if b == [] then a == []
    else
      SubSequence(a, b[..|b| - 1])
      || (a != [] && a[|a| - 1] == b[|b| - 1] && SubSequence(a[..|a| - 1], b[..|b| - 1]))
  }

  /** The tiers of `out` are non-empty subsequences of different tiers, in the same order. */
  ghost predicate Grouped(out: seq<seq<Raw>>, tiers: seq<Tier>)
    decreases |tiers|
  {
    if tiers == [] then out == []
    else
      var rest := tiers[..|tiers| - 1];
      Grouped(out, rest)
      || (out != [] && out[|out| - 1] != [] && SubSequence(out[|out| - 1], Values(tiers[|tiers| - 1]))
          && Grouped(out[..|out| - 1], rest))
  }

  lemma SubSequenceSkip(a: seq<Raw>, b: seq<Raw>, x: Raw)
    requires SubSequence(a, b)
    ensures SubSequence(a, b + [x]) && SubSequence(a + [x], b + [x])
  {
    assert (b + [x])[..|b|] == b && (a + [x])[..|a|] == a;
  }

  lemma {:induction false} SubSequenceExtend(a: seq<Raw>, b: seq<Raw>, n: nat)
    requires n <= |b| && SubSequence(a, b[..n])
    ensures SubSequence(a, b)
    decreases |b| - n
  {
    if n < |b| {
      assert b[..n + 1] == b[..n] + [b[n]];
      SubSequenceSkip(a, b[..n], b[n]);
      SubSequenceExtend(a, b, n + 1);
    } else {
      assert b[..n] == b;
    }
  }

  lemma {:induction false} GroupedExtend(out: seq<seq<Raw>>, tiers: seq<Tier>, n: nat)
    requires n <= |tiers| && Grouped(out, tiers[..n])
    ensures Grouped(out, tiers)
    decreases |tiers| - n
  {
    if n < |tiers| {
      assert tiers[..n + 1][..n] == tiers[..n];
      GroupedExtend(out, tiers, n + 1);
    } else {
      assert tiers[..n] == tiers;
    }
  }

  /** Once a limit is reached, the tiers behind change nothing. */
  lemma {:induction false} TiersSaturated(norm: Raw -> Option<Url>, tiers: seq<Tier>, n: nat)
    requires n <= |tiers|
    requires |Spec(norm, Candidates(tiers[..n]), MAX_TRACKERS)| >= MAX_TRACKERS || |Candidates(tiers[..n])| >= 4 * MAX_TRACKERS
    ensures Spec(norm, Candidates(tiers), MAX_TRACKERS) == Spec(norm, Candidates(tiers[..n]), MAX_TRACKERS)
    decreases |tiers| - n
  {
    hide Spec;
    if n < |tiers| {
      assert tiers[..n + 1][..n] == tiers[..n];
      SpecSaturated(norm, Candidates(tiers[..n]), Values(tiers[n]), MAX_TRACKERS);
      TiersSaturated(norm, tiers, n + 1);
    } else {
      assert tiers[..n] == tiers;
    }
  }

  /** What b has beyond its initial part a. */
  function Beyond(a: seq<Raw>, b: seq<Raw>): seq<Raw> { if |a| <= |b| then b[|a|..] else [] }

  /** Each tier keeps what it adds to the flat specification of the tiers before it; a tier that keeps nothing goes. */
  ghost function Kept(norm: Raw -> Option<Url>, tiers: seq<Tier>): seq<seq<Raw>> {
    if tiers == [] then []
    else
      var rest := tiers[..|tiers| - 1];
      var added := Beyond(Spec(norm, Candidates(rest), MAX_TRACKERS), Spec(norm, Candidates(tiers), MAX_TRACKERS));
      if added != [] then Kept(norm, rest) + [added] else Kept(norm, rest)
  }

  /** Each accepted tracker stays in the tier that brought it. */
  lemma KeptSnoc(norm: Raw -> Option<Url>, tiers: seq<Tier>, tier: Tier, accepted: seq<Raw>)
    requires Spec(norm, Candidates(tiers + [tier]), MAX_TRACKERS) == Spec(norm, Candidates(tiers), MAX_TRACKERS) + accepted
    ensures Kept(norm, tiers + [tier]) == if accepted != [] then Kept(norm, tiers) + [accepted] else Kept(norm, tiers)
  {
    hide Spec, Candidates;
    assert (tiers + [tier])[..|tiers|] == tiers;
    var flat := Spec(norm, Candidates(tiers), MAX_TRACKERS);
    assert Beyond(flat, flat + accepted) == accepted;
  }

  lemma {:induction false} KeptSaturated(norm: Raw -> Option<Url>, tiers: seq<Tier>, n: nat)
    requires n <= |tiers|
    requires |Spec(norm, Candidates(tiers[..n]), MAX_TRACKERS)| >= MAX_TRACKERS || |Candidates(tiers[..n])| >= 4 * MAX_TRACKERS
    ensures Kept(norm, tiers) == Kept(norm, tiers[..n])
    decreases |tiers| - n
  {
    hide Spec;
    if n < |tiers| {
      assert tiers[..n + 1][..n] == tiers[..n] && tiers[..n + 1] == tiers[..n] + [tiers[n]];
      SpecSaturated(norm, Candidates(tiers[..n]), Values(tiers[n]), MAX_TRACKERS);
      var flat := Spec(norm, Candidates(tiers[..n]), MAX_TRACKERS);
      assert flat + [] == flat;
      KeptSnoc(norm, tiers[..n], tiers[n], []);
      KeptSaturated(norm, tiers, n + 1);
    } else {
      assert tiers[..n] == tiers;
    }
  }

  /** The counters and lists of the tier loops, after all of `cands` came by. */
  ghost predicate TierState(norm: Raw -> Option<Url>, cands: seq<Raw>, flat: seq<Raw>, count: nat, candidates: nat, seen: set<Url>) {
    && flat == Spec(norm, cands, MAX_TRACKERS)
    && count == |flat|
    && seen == Urls(norm, flat)
    && (count < MAX_TRACKERS ==> candidates == Min(|cands|, 4 * MAX_TRACKERS))
  }

  lemma TierSaturated(norm: Raw -> Option<Url>, cands: seq<Raw>, more: seq<Raw>, flat: seq<Raw>, count: nat,
                      candidates: nat, seen: set<Url>)
    requires TierState(norm, cands, flat, count, candidates, seen)
    requires count >= MAX_TRACKERS || candidates >= 4 * MAX_TRACKERS
    ensures TierState(norm, cands + more, flat, count, candidates, seen)
  {
    SpecSaturated(norm, cands, more, MAX_TRACKERS);
  }

  lemma TierStep(norm: Raw -> Option<Url>, cands: seq<Raw>, x: Raw, flat: seq<Raw>, count: nat, candidates: nat,
                 seen: set<Url>)
    requires TierState(norm, cands, flat, count, candidates, seen)
    requires count < MAX_TRACKERS && candidates < 4 * MAX_TRACKERS
    ensures if norm(x).Some? && norm(x).value !in seen
      then TierState(norm, cands + [x], flat + [x], count + 1, candidates + 1, seen + {norm(x).value})
      else TierState(norm, cands + [x], flat, count, candidates + 1, seen)
  {
    SpecStep(norm, cands, x, MAX_TRACKERS);
    if norm(x).Some? {
      UrlsSnoc(norm, flat, x);
    }
    assert flat + [] == flat;
  }

  /** The inner loop: one tier's values. */
  method FilterTier(norm: Raw -> Option<Url>, values: seq<Raw>, count0: nat, candidates0: nat, seen0: set<Url>,
                    ghost cands: seq<Raw>, ghost flat: seq<Raw>)
    returns (accepted: seq<Raw>, count: nat, candidates: nat, seen: set<Url>)
    requires TierState(norm, cands, flat, count0, candidates0, seen0)
    ensures TierState(norm, cands + values, flat + accepted, count, candidates, seen)
    ensures SubSequence(accepted, values)
  {
    hide TierState, SubSequence;
    accepted, count, candidates, seen := [], count0, candidates0, seen0;
    var j := 0;
    assert cands + values[..0] == cands && flat + [] == flat;
    NothingOfNothing();
    while j < |values|
      invariant 0 <= j <= |values|
      invariant TierState(norm, cands + values[..j], flat + accepted, count, candidates, seen)
      invariant SubSequence(accepted, values[..j])
    {
      var value := values[j];
      if count >= MAX_TRACKERS || candidates >= MAX_TRACKERS * 4 {
        TierSaturated(norm, cands + values[..j], values[j..], flat + accepted, count, candidates, seen);
        assert cands + values == (cands + values[..j]) + values[j..];
        SubSequenceExtend(accepted, values, j);
        return;
      }
      TierStep(norm, cands + values[..j], value, flat + accepted, count, candidates, seen);
      SubSequenceSkip(accepted, values[..j], value);
      assert values[..j + 1] == values[..j] + [value];
      assert cands + values[..j + 1] == (cands + values[..j]) + [value];
      assert flat + (accepted + [value]) == (flat + accepted) + [value];
      candidates := candidates + 1;
      var url := norm(value);
      if url.Some? && url.value !in seen {
        seen := seen + {url.value};
        accepted := accepted + [value];
        count := count + 1;
      }
      j := j + 1;
    }
    assert values[..j] == values;
  }

  lemma NothingOfNothing()
    ensures SubSequence([], [])
  {
  }

  lemma GroupedSnoc(out: seq<seq<Raw>>, tiers: seq<Tier>, tier: Tier, accepted: seq<Raw>)
    requires Grouped(out, tiers) && SubSequence(accepted, Values(tier))
    ensures Grouped(if accepted != [] then out + [accepted] else out, tiers + [tier])
  {
    hide SubSequence;
    assert (tiers + [tier])[..|tiers|] == tiers;
    assert (out + [accepted])[..|out|] == out;
  }

  /** One tier: what it keeps becomes an output tier, unless it keeps nothing. */
  method AddTier(norm: Raw -> Option<Url>, tier: Tier, out: seq<seq<Raw>>, count: nat, candidates: nat, seen: set<Url>,
                 ghost before: seq<Tier>)
    returns (out': seq<seq<Raw>>, count': nat, candidates': nat, seen': set<Url>)
    requires TierState(norm, Candidates(before), Flatten(out), count, candidates, seen) && Grouped(out, before)
    requires out == Kept(norm, before)
    ensures TierState(norm, Candidates(before + [tier]), Flatten(out'), count', candidates', seen')
    ensures Grouped(out', before + [tier]) && out' == Kept(norm, before + [tier])
  {
    hide TierState, SubSequence, Grouped, Kept;
    assert (before + [tier])[..|before|] == before;
    ghost var cands, flat := Candidates(before), Flatten(out);
    assert cands + [] == cands && flat + [] == flat;
    out', count', candidates', seen' := out, count, candidates, seen;
    var accepted: seq<Raw> := [];
    if tier.Tier? {
      accepted, count', candidates', seen' := FilterTier(norm, tier.values, count, candidates, seen, cands, flat);
    } else {
      NothingFrom(tier);
    }
    GroupedSnoc(out, before, tier, accepted);
    StateIsSpec(norm, cands, flat, count, candidates, seen);
    StateIsSpec(norm, Candidates(before + [tier]), flat + accepted, count', candidates', seen');
    KeptSnoc(norm, before, tier, accepted);
    if accepted != [] {
      out' := out + [accepted];
    }
  }

  lemma StateIsSpec(norm: Raw -> Option<Url>, cands: seq<Raw>, flat: seq<Raw>, count: nat, candidates: nat, seen: set<Url>)
    requires TierState(norm, cands, flat, count, candidates, seen)
    ensures flat == Spec(norm, cands, MAX_TRACKERS)
  {
  }

  lemma NothingFrom(tier: Tier)
    requires tier.NotAList?
    ensures SubSequence([], Values(tier))
  {
  }

  method FilterTiers(norm: Raw -> Option<Url>, tiers: seq<Tier>)
    returns (out: seq<seq<Raw>>, count: nat, seen: set<Url>)
    ensures Flatten(out) == Spec(norm, Candidates(tiers), 32)
    ensures Grouped(out, tiers) && out == Kept(norm, tiers)
    ensures count == |Flatten(out)| && seen == Urls(norm, Flatten(out))
  {
    hide Spec, Urls, Flatten, Candidates, Grouped, Kept;
    out, count, seen := [], 0, {};
    var candidates: nat := 0;
    var i := 0;
    assert tiers[..0] == [];
    EmptyTiers(norm);
    while i < |tiers|
      invariant 0 <= i <= |tiers|
      invariant TierState(norm, Candidates(tiers[..i]), Flatten(out), count, candidates, seen)
      invariant Grouped(out, tiers[..i]) && out == Kept(norm, tiers[..i])
    {
      assert tiers[..i + 1] == tiers[..i] + [tiers[i]];
      out, count, candidates, seen := AddTier(norm, tiers[i], out, count, candidates, seen, tiers[..i]);
      i := i + 1;
      if tiers[i - 1].Tier? && candidates >= MAX_TRACKERS * 4 {
        TiersSaturated(norm, tiers, i);
        KeptSaturated(norm, tiers, i);
        GroupedExtend(out, tiers, i);
        return;
      }
    }
    assert tiers[..i] == tiers;
  }

  lemma EmptyTiers(norm: Raw -> Option<Url>)
    ensures TierState(norm, Candidates([]), Flatten([]), 0, 0, {}) && Grouped([], []) && Kept(norm, []) == []
  {
  }

  // ---------------------------------------------------------------- the metadata

  /** url-list and httpseeds: one value, a list, or something else. */
  datatype Seeds = NoSeeds | OneSeed(value: Raw) | SeedList(values: seq<Raw>) | OtherSeeds

  /** announce-list: missing or no list at all counts as empty. */
  datatype AnnounceList = NoAnnounceList | AnnounceList(tiers: seq<Tier>)

  function TiersOf(list: AnnounceList): seq<Tier> { if list.AnnounceList? then list.tiers else [] }

  function AsTiers(out: seq<seq<Raw>>): (r: seq<Tier>)
    ensures |r| == |out| && forall i :: 0 <= i < |out| ==> r[i] == Tier(out[i])
  {
    seq(|out|, i requires 0 <= i < |out| => Tier(out[i]))
  }

  function SanitizedSeeds(norm: Raw -> Option<Url>, seeds: Seeds): Seeds {
    match seeds
    case NoSeeds => NoSeeds
    case OtherSeeds => NoSeeds
    case OneSeed(v) => if norm(v).Some? then OneSeed(v) else NoSeeds
    case SeedList(vs) => if Spec(norm, vs, 16) == [] then NoSeeds else SeedList(Spec(norm, vs, 16))
  }

  lemma SpecOfOne(norm: Raw -> Option<Url>, v: Raw)
    ensures Spec(norm, [v], MAX_WEB_SEEDS) == if norm(v).Some? then [v] else []
  {
    assert Take([v], 4 * MAX_WEB_SEEDS) == [v] && [v][1..] == [];
    assert Firsts(norm, [v], {}) == if norm(v).Some? then [v] else [];
  }

  lemma {:induction false} FirstsEmptyIff(norm: Raw -> Option<Url>, items: seq<Raw>)
    ensures Firsts(norm, items, {}) == [] <==> forall i :: 0 <= i < |items| ==> norm(items[i]).None?
    decreases |items|
  {
    if items != [] {
      FirstsEmptyIff(norm, items[1..]);
      assert items == [items[0]] + items[1..];
    }
  }

  /** No seed list is left exactly if none of the first 64 values is valid. */
  lemma NoSeedsIff(norm: Raw -> Option<Url>, vs: seq<Raw>)
    ensures Spec(norm, vs, 16) == [] <==> forall i :: 0 <= i < |vs| && i < 64 ==> norm(vs[i]).None?
  {
    var firsts := Take(vs, 64);
    FirstsEmptyIff(norm, firsts);
    assert forall i :: 0 <= i < |firsts| ==> firsts[i] == vs[i];
  }

  /** A valid, unseen announce goes first if there is room. */
  ghost predicate AnnounceGoesFirst(norm: Raw -> Option<Url>, announce: Option<Raw>, flat: seq<Raw>) {
    announce.Some? && |flat| < 32 && norm(announce.value).Some? && norm(announce.value).value !in Urls(norm, flat)
  }

  /** The sanitized tiers, told from the metadata before: exactly the kept tiers, behind the announce if it goes first. */
  ghost predicate SanitizedTiers(norm: Raw -> Option<Url>, announce: Option<Raw>, tiers: seq<Tier>, out: seq<seq<Raw>>) {
    var flat := Spec(norm, Candidates(tiers), 32);
    if AnnounceGoesFirst(norm, announce, flat) then
      out != [] && out[0] == [announce.value] && Flatten(out[1..]) == flat && Grouped(out[1..], tiers)
      && out[1..] == Kept(norm, tiers)
    else Flatten(out) == flat && Grouped(out, tiers) && out == Kept(norm, tiers)
  }

  /** The first tracker of the tiers, if there is one. */
  function FirstEntry(out: seq<seq<Raw>>): Option<Raw> {
    if Flatten(out) == [] then None else Some(Flatten(out)[0])
  }

  /**
    With fewer than 32 trackers accepted from the tiers a valid announce is left:
    in a tier of its own at the front, or under a URL that a tier brought already.
   */
  ghost predicate AnnounceSurvives(norm: Raw -> Option<Url>, announce: Raw, tiers: seq<Tier>, out: seq<seq<Raw>>) {
    var accepted := Spec(norm, Candidates(tiers), 32);
    norm(announce).Some? && |accepted| < 32 ==>
      if exists i :: 0 <= i < |accepted| && norm(accepted[i]) == norm(announce) then Flatten(out) == accepted
      else out != [] && out[0] == [announce] && Flatten(out) == [announce] + accepted
  }

  lemma ValidAnnounceSurvives(norm: Raw -> Option<Url>, announce: Raw, tiers: seq<Tier>, out: seq<seq<Raw>>)
    requires SanitizedTiers(norm, Some(announce), tiers, out)
    ensures AnnounceSurvives(norm, announce, tiers, out)
  {
    hide Spec, Grouped, Flatten, Candidates, Kept;
    var accepted := Spec(norm, Candidates(tiers), 32);
    if norm(announce).Some? && |accepted| < 32 {
      if i :| 0 <= i < |accepted| && norm(accepted[i]) == norm(announce) {
        assert norm(accepted[i]).value in Urls(norm, accepted);
      } else {
        assert norm(announce).value !in Urls(norm, accepted);
        assert out == [out[0]] + out[1..];
        FlattenCons(out[0], out[1..]);
      }
    }
  }

  class MetaInfo {
    var announce: Option<Raw>
    var announceList: AnnounceList
    var urlList: Seeds
    var httpSeeds: Seeds

    method SanitizeSeeds(norm: Raw -> Option<Url>, seeds: Seeds) returns (r: Seeds)
      ensures r == SanitizedSeeds(norm, seeds)
      // a single valid seed stays, and so does a list with a valid seed among its first 64 values
      ensures seeds.OneSeed? && norm(seeds.value).Some? ==> r == seeds
      ensures seeds.SeedList? ==>
        (r.SeedList? <==> exists i :: 0 <= i < |seeds.values| && i < 64 && norm(seeds.values[i]).Some?)
      ensures r.SeedList? ==> seeds.SeedList? && Clean(norm, r.values) && |r.values| <= 16
    {
      match seeds
      case NoSeeds => r := NoSeeds;
      case OtherSeeds => r := NoSeeds;
      case OneSeed(v) =>
        var accepted := FilterNetworkUrls(norm, [v], MAX_WEB_SEEDS);
        SpecOfOne(norm, v);
        r := if accepted != [] then OneSeed(accepted[0]) else NoSeeds;
      case SeedList(vs) =>
        NoSeedsIff(norm, vs);
        SpecClean(norm, vs, 16);
        hide Spec, Clean;
        var accepted := FilterNetworkUrls(norm, vs, MAX_WEB_SEEDS);
        r := if accepted != [] then SeedList(accepted) else NoSeeds;
    }

    /** sanitize_torrent_metainfo; `out` are the tracker tiers that are left. */
    method Sanitize(trackerNorm: Raw -> Option<Url>, seedNorm: Raw -> Option<Url>) returns (out: seq<seq<Raw>>)
      modifies this
      ensures SanitizedTiers(trackerNorm, old(announce), TiersOf(old(announceList)), out)
      // a missing announce-list has no tiers, and a valid announce is still among the trackers unless 32 fill the list
      ensures var tiers := match old(announceList) case AnnounceList(tiers) => tiers case NoAnnounceList => [];
        && SanitizedTiers(trackerNorm, old(announce), tiers, out)
        && (old(announce).Some? ==> AnnounceSurvives(trackerNorm, old(announce.value), tiers, out))
      ensures announceList == if out == [] then NoAnnounceList else AnnounceList(AsTiers(out))
      ensures announce == FirstEntry(out)
      ensures urlList == SanitizedSeeds(seedNorm, old(urlList))
      ensures httpSeeds == SanitizedSeeds(seedNorm, old(httpSeeds))
    {
      hide Spec, Candidates, Grouped, Kept, SanitizedSeeds;
      var tiers := TiersOf(announceList);
      var count, seen;
      out, count, seen := FilterTiers(trackerNorm, tiers);
      if announce.Some? && count < MAX_TRACKERS {
        var url := trackerNorm(announce.value);
        if url.Some? && url.value !in seen {
          assert ([[announce.value]] + out)[1..] == out;
          out := [[announce.value]] + out;
        }
      }
      FirstOfFlatten(trackerNorm, announce, tiers, out);
      if announce.Some? {
        ValidAnnounceSurvives(trackerNorm, announce.value, tiers, out);
      }
      if out != [] {
        announceList := AnnounceList(AsTiers(out));
        announce := Some(out[0][0]);
      } else {
        announceList := NoAnnounceList;
        announce := None;
      }
      urlList := SanitizeSeeds(seedNorm, urlList);
      httpSeeds := SanitizeSeeds(seedNorm, httpSeeds);
    }
  }

  lemma {:induction false} GroupedNonEmpty(out: seq<seq<Raw>>, tiers: seq<Tier>, i: nat)
    requires Grouped(out, tiers) && i < |out|
    ensures out[i] != []
    decreases |tiers|
  {
    var rest := tiers[..|tiers| - 1];
    if Grouped(out, rest) {
      GroupedNonEmpty(out, rest, i);
    } else if i < |out| - 1 {
      GroupedNonEmpty(out[..|out| - 1], rest, i);
    }
  }

  lemma {:induction false} FlattenCons(first: seq<Raw>, rest: seq<seq<Raw>>)
    ensures Flatten([first] + rest) == first + Flatten(rest)
    decreases |rest|
  {
    var all := [first] + rest;
    if rest == [] {
      assert all[..0] == [] && all == [first];
      assert [] + first == first + [];
    } else {
      var n := |rest| - 1;
      assert all[..|all| - 1] == [first] + rest[..n];
      FlattenCons(first, rest[..n]);
      assert first + Flatten(rest[..n]) + rest[n] == first + (Flatten(rest[..n]) + rest[n]);
    }
  }

  lemma TiersNonEmpty(norm: Raw -> Option<Url>, announce: Option<Raw>, tiers: seq<Tier>, out: seq<seq<Raw>>, i: nat)
    requires SanitizedTiers(norm, announce, tiers, out) && i < |out|
    ensures out[i] != []
  {
    hide Spec, Grouped, Flatten, Kept;
    if !AnnounceGoesFirst(norm, announce, Spec(norm, Candidates(tiers), MAX_TRACKERS)) {
      GroupedNonEmpty(out, tiers, i);
    } else if i > 0 {
      GroupedNonEmpty(out[1..], tiers, i - 1);
    }
  }

  lemma FirstOfFlatten(norm: Raw -> Option<Url>, announce: Option<Raw>, tiers: seq<Tier>, out: seq<seq<Raw>>)
    requires SanitizedTiers(norm, announce, tiers, out)
    ensures out == [] ==> FirstEntry(out) == None
    ensures out != [] ==> out[0] != [] && FirstEntry(out) == Some(out[0][0])
  {
    hide SanitizedTiers;
    if out != [] {
      TiersNonEmpty(norm, announce, tiers, out, 0);
      assert out == [out[0]] + out[1..];
      FlattenCons(out[0], out[1..]);
    }
  }

  /** The trackers left are all valid, free of duplicates and at most 32. */
  lemma SanitizedIsClean(norm: Raw -> Option<Url>, announce: Option<Raw>, tiers: seq<Tier>, out: seq<seq<Raw>>)
    requires SanitizedTiers(norm, announce, tiers, out)
    ensures Clean(norm, Flatten(out)) && |Flatten(out)| <= 32
  {
    hide Spec, Grouped, Flatten, Candidates, Clean, Kept;
    var flat := Spec(norm, Candidates(tiers), MAX_TRACKERS);
    SpecClean(norm, Candidates(tiers), MAX_TRACKERS);
    if AnnounceGoesFirst(norm, announce, flat) {
      assert out == [out[0]] + out[1..];
      FlattenCons(out[0], out[1..]);
      CleanCons(norm, announce.value, flat);
    }
  }

  lemma CleanCons(norm: Raw -> Option<Url>, x: Raw, rest: seq<Raw>)
    requires Clean(norm, rest) && norm(x).Some? && norm(x).value !in Urls(norm, rest)
    ensures Clean(norm, [x] + rest)
  {
    forall j | 0 <= j < |rest|
      ensures norm(rest[j]) != norm(x)
    {
      assert norm(rest[j]).value in Urls(norm, rest);
    }
  }

  lemma {:induction false} CandidatesAsTiers(out: seq<seq<Raw>>)
    ensures Candidates(AsTiers(out)) == Flatten(out)
    decreases |out|
  {
    if out != [] {
      CandidatesAsTiers(out[..|out| - 1]);
      assert AsTiers(out)[..|out| - 1] == AsTiers(out[..|out| - 1]);
    }
  }

  /** Lists of non-empty tiers with the same content that fit the same grouping are equal, so sanitizing again changes nothing. */
  lemma {:induction false} GroupedUnique(out: seq<seq<Raw>>, again: seq<seq<Raw>>)
    requires forall i :: 0 <= i < |out| ==> out[i] != []
    requires Grouped(again, AsTiers(out)) && Flatten(again) == Flatten(out)
    ensures again == out
    decreases |out|
  {
    if out != [] {
      var n := |out| - 1;
      assert AsTiers(out)[..n] == AsTiers(out[..n]);
      if Grouped(again, AsTiers(out[..n])) {
        GroupedLength(again, AsTiers(out[..n]));
        CandidatesAsTiers(out[..n]);
      } else {
        var m := |again| - 1;
        SubSequenceLength(again[m], out[n]);
        GroupedLength(again[..m], AsTiers(out[..n]));
        CandidatesAsTiers(out[..n]);
        assert |again[m]| == |out[n]|;
        assert Flatten(again)[|Flatten(out[..n])|..] == again[m];
        assert Flatten(out)[|Flatten(out[..n])|..] == out[n];
        assert Flatten(again[..m]) == Flatten(again)[..|Flatten(out[..n])|] == Flatten(out[..n]);
        GroupedUnique(out[..n], again[..m]);
      }
    }
  }

  lemma {:induction false} SubSequenceLength(a: seq<Raw>, b: seq<Raw>)
    requires SubSequence(a, b)
    ensures |a| <= |b|
    decreases |b|
  {
    if b != [] {
      if SubSequence(a, b[..|b| - 1]) {
        SubSequenceLength(a, b[..|b| - 1]);
      } else {
        SubSequenceLength(a[..|a| - 1], b[..|b| - 1]);
      }
    }
  }

  lemma {:induction false} GroupedLength(out: seq<seq<Raw>>, tiers: seq<Tier>)
    requires Grouped(out, tiers)
    ensures |Flatten(out)| <= |Candidates(tiers)|
    decreases |tiers|
  {
    if tiers != [] {
      var rest := tiers[..|tiers| - 1];
      if Grouped(out, rest) {
        GroupedLength(out, rest);
      } else {
        GroupedLength(out[..|out| - 1], rest);
        SubSequenceLength(out[|out| - 1], Values(tiers[|tiers| - 1]));
      }
    }
  }

  /** Sanitizing twice is sanitizing once: the only tiers the second pass can leave are those it was given. */
  lemma SanitizeTwice(norm: Raw -> Option<Url>, announce: Option<Raw>, tiers: seq<Tier>,
                      out: seq<seq<Raw>>, again: seq<seq<Raw>>)
    requires SanitizedTiers(norm, announce, tiers, out)
    requires SanitizedTiers(norm, FirstEntry(out), AsTiers(out), again)
    ensures again == out
  {
    hide Spec, Grouped, Flatten, Candidates, Kept;
    SanitizedIsClean(norm, announce, tiers, out);
    CandidatesAsTiers(out);
    SpecOfClean(norm, Flatten(out), MAX_TRACKERS);
    if Flatten(out) != [] {
      assert norm(Flatten(out)[0]).value in Urls(norm, Flatten(out));
    }
    forall i | 0 <= i < |out|
      ensures out[i] != []
    {
      TiersNonEmpty(norm, announce, tiers, out, i);
    }
    GroupedUnique(out, again);
  }

  lemma SeedsTwice(norm: Raw -> Option<Url>, seeds: Seeds)
    ensures SanitizedSeeds(norm, SanitizedSeeds(norm, seeds)) == SanitizedSeeds(norm, seeds)
  {
    if seeds.SeedList? {
      SpecClean(norm, seeds.values, MAX_WEB_SEEDS);
      SpecOfClean(norm, Spec(norm, seeds.values, MAX_WEB_SEEDS), MAX_WEB_SEEDS);
    }
  }
}
