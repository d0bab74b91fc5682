/** Choosing an index: every definition whose predicate is proven and that helps the query
    is a candidate, and the best candidate is used. */
module AccessPlans {
  import opened Model
  import opened Schema
  import opened Expressions
  import opened Planner
  import opened IndexPredicates
  import opened OrderedScan

  const MAX_PREDICATE_REJECTIONS: nat := 8

  /** What candidates are compared by. `position` is the definition's place in the table. */
  datatype Candidate = Candidate(position: nat, equality: nat, ranged: bool, ordered: bool, components: nat, id: nat)

  /** An index helps when it fixes a component, bounds one, or satisfies the sort. */
  datatype Offer = Unplannable | Useless | Useful(candidate: Candidate)

  function OfferOf(t: TableSchema, d: IndexDefinition, stages: seq<Stage>, position: nat, id: nat): Offer {
    var a := MatchComponents(t, d.components, LeadingConstraints(stages, false));
    if a.Broken? || |a.equality| > |d.components| then Unplannable else
    var sort := IndexSortMatch(stages, d.components, |a.equality|);
    if a.equality == [] && a.range.None? && sort.None? then Useless
    else Useful(Candidate(position, |a.equality|, a.range.Some?, sort.Some?, |d.components|, id))
  }

  /** More fixed components, then a range, then a satisfied sort, then fewer components,
      then the older index. */
  predicate Better(x: Candidate, y: Candidate) {
    x.equality > y.equality ||
    (x.equality == y.equality &&
     ((x.ranged && !y.ranged) ||
      (x.ranged == y.ranged &&
       ((x.ordered && !y.ordered) ||
        (x.ordered == y.ordered &&
         (x.components < y.components || (x.components == y.components && x.id < y.id)))))))
  }

  ghost predicate IsCandidate(
    b: Builtins, t: TableSchema, ds: seq<IndexDefinition>, ids: seq<nat>, stages: seq<Stage>, c: Candidate)
    requires |ids| == |ds|
  {
    && c.position < |ds| && Proven(b, ds[c.position], LeadingFilters(stages))
    && OfferOf(t, ds[c.position], stages, c.position, ids[c.position]) == Useful(c)
  }

  /** The planned index is a candidate that no other candidate beats; with none, the table
      is scanned. An index that cannot be planned is an error; of the indexes whose
      predicate is not proven, those before the last reported rejection are planned too. */
  method PlanAccess(b: Builtins, t: TableSchema, ds: seq<IndexDefinition>, ids: seq<nat>, stages: seq<Stage>)
    returns (failed: bool, best: Option<Candidate>, rejected: seq<nat>)
    requires |ids| == |ds|
    ensures failed ==> exists i :: 0 <= i < |ds| && OfferOf(t, ds[i], stages, i, ids[i]).Unplannable?
    ensures !failed ==> forall i :: 0 <= i < |ds| && Proven(b, ds[i], LeadingFilters(stages)) ==>
                          !OfferOf(t, ds[i], stages, i, ids[i]).Unplannable?
    ensures !failed && best.Some? ==> IsCandidate(b, t, ds, ids, stages, best.value)
    ensures !failed ==> forall c :: IsCandidate(b, t, ds, ids, stages, c) ==> best.Some? && !Better(c, best.value)
    ensures |rejected| <= MAX_PREDICATE_REJECTIONS
    ensures forall i <- rejected ::
              i < |ds| && !Proven(b, ds[i], LeadingFilters(stages)) && OfferOf(t, ds[i], stages, i, ids[i]).Useful?
  {
    hide Proven, OfferOf, LeadingFilters;
    best, failed, rejected := None, false, [];
    for i := 0 to |ds|
      invariant best.Some? ==> best.value.position < i && IsCandidate(b, t, ds, ids, stages, best.value)
      invariant forall c :: IsCandidate(b, t, ds, ids, stages, c) && c.position < i ==>
                  best.Some? && !Better(c, best.value)
      invariant forall j :: 0 <= j < i && Proven(b, ds[j], LeadingFilters(stages)) ==>
                  !OfferOf(t, ds[j], stages, j, ids[j]).Unplannable?
      invariant |rejected| <= MAX_PREDICATE_REJECTIONS
      invariant forall j <- rejected ::
                  j < |ds| && !Proven(b, ds[j], LeadingFilters(stages)) && OfferOf(t, ds[j], stages, j, ids[j]).Useful?
    {
      OfferPosition(t, ds[i], stages, i, ids[i]);
      if !Proven(b, ds[i], LeadingFilters(stages)) {
        if |rejected| < MAX_PREDICATE_REJECTIONS {
          var offer := OfferOf(t, ds[i], stages, i, ids[i]);
          if offer.Unplannable? { return true, None, rejected; }
          if offer.Useful? { rejected := rejected + [i]; }
        }
      } else {
        var offer := OfferOf(t, ds[i], stages, i, ids[i]);
        if offer.Unplannable? { return true, None, rejected; }
        if offer.Useful? && (best.None? || Better(offer.candidate, best.value)) {
          best := Some(offer.candidate);
        }
      }
    }
  }

  lemma OfferPosition(t: TableSchema, d: IndexDefinition, stages: seq<Stage>, position: nat, id: nat)
    ensures var o := OfferOf(t, d, stages, position, id); o.Useful? ==> o.candidate.position == position
  {
    hide MatchComponents, IndexSortMatch, LeadingConstraints;
  }
}
