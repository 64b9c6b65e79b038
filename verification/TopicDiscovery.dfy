/** Which topics a pass of auto-discovery subscribes to. */
module TopicDiscovery {
  import opened Text
  import opened Wildcard

  /** Kafka's own topics start with two underscores; they are never backed up. */
  predicate Internal(t: string) {
    t[..if |t| < 2 then |t| else 2] == "__"
  }

  /** Some pattern of the list matches the topic. */
  ghost predicate Matched(patterns: seq<string>, t: string) {
    exists i :: 0 <= i < |patterns| && Glob(CStr(patterns[i]), CStr(t))
  }

  ghost predicate Wanted(topics: seq<string>, excludes: seq<string>, t: string) {
    !Internal(t) && !Matched(excludes, t) && !Matched(topics, t)
  }

  /** The subscriptions after looking at the listed topics one by one. */
  ghost function Discover(topics: seq<string>, excludes: seq<string>, listed: seq<string>): (r: seq<string>)
    ensures topics <= r
    decreases listed
  {
    if listed == [] then topics
    else Discover(if Wanted(topics, excludes, listed[0]) then topics + [listed[0]] else topics,
                  excludes, listed[1..])
  }

  ghost predicate DuplicateFree(ts: seq<string>) {
    forall i, j :: 0 <= i < j < |ts| ==> ts[i] != ts[j]
  }

  lemma MatchedMonotone(some: seq<string>, more: seq<string>, t: string)
    requires some <= more && Matched(some, t)
    ensures Matched(more, t)
  {
    var i :| 0 <= i < |some| && Glob(CStr(some[i]), CStr(t));
    assert more[i] == some[i];
  }

  lemma MatchedByItself(ts: seq<string>, i: nat)
    requires i < |ts|
    ensures Matched(ts, ts[i])
  {
    GlobReflexive(CStr(ts[i]));
  }

  lemma {:induction false} AddsWanted(topics: seq<string>, excludes: seq<string>, listed: seq<string>, i: nat)
    requires |topics| <= i < |Discover(topics, excludes, listed)|
    ensures var after := Discover(topics, excludes, listed);
            after[i] in listed && Wanted(after[..i], excludes, after[i])
    decreases listed
  {
    var next := if Wanted(topics, excludes, listed[0]) then topics + [listed[0]] else topics;
    var after := Discover(topics, excludes, listed);
    if i < |next| {
      assert after[..i] == topics && after[i] == next[i] == listed[0];
    } else {
      AddsWanted(next, excludes, listed[1..], i);
    }
  }

  lemma InternalIff(t: string)
    ensures Internal(t) <==> |t| >= 2 && t[0] == '_' && t[1] == '_'
  {
    assert |t| >= 2 ==> (t[..2] == "__" <==> t[0] == '_' && t[1] == '_');
  }

  /** What it takes for a topic to be wanted. */
  lemma WantedIff(topics: seq<string>, excludes: seq<string>, t: string)
    ensures Wanted(topics, excludes, t) <==>
            && !(|t| >= 2 && t[0] == '_' && t[1] == '_')
            && (forall p :: p in excludes ==> !Glob(CStr(p), CStr(t)))
            && (forall p :: p in topics ==> !Glob(CStr(p), CStr(t)))
  {
    hide Matched, Glob, CStr;
    InternalIff(t);
    hide Internal;
    MatchedIff(excludes, t);
    MatchedIff(topics, t);
  }

  lemma MatchedIff(patterns: seq<string>, t: string)
    ensures Matched(patterns, t) <==> exists p :: p in patterns && Glob(CStr(p), CStr(t))
  {
    hide Glob, CStr;
    if Matched(patterns, t) {
      var i :| 0 <= i < |patterns| && Glob(CStr(patterns[i]), CStr(t));
      assert patterns[i] in patterns;
    }
    if p :| p in patterns && Glob(CStr(p), CStr(t)) {
      var i :| 0 <= i < |patterns| && patterns[i] == p;
    }
  }

  /** Every topic a pass adds was listed, is not internal, is not excluded, and was not
      covered by any subscription in front of it. */
  lemma AddsOnlyWanted(topics: seq<string>, excludes: seq<string>, listed: seq<string>, i: nat)
    requires |topics| <= i < |Discover(topics, excludes, listed)|
    ensures var after := Discover(topics, excludes, listed);
            var t := after[i];
            && t in listed && !(|t| >= 2 && t[0] == '_' && t[1] == '_')
            && (forall p :: p in excludes ==> !Glob(CStr(p), CStr(t)))
            && (forall p :: p in after[..i] ==> !Glob(CStr(p), CStr(t)))
  {
    var after := Discover(topics, excludes, listed);
    AddsWanted(topics, excludes, listed, i);
    WantedIff(after[..i], excludes, after[i]);
  }

  /** One more topic at the end of the listing is added at the end, exactly if it is not
      internal, not excluded, and not covered by a subscription the pass has come to. */
  lemma {:induction false} OneMoreListed(topics: seq<string>, excludes: seq<string>, listed: seq<string>, t: string)
    ensures var before := Discover(topics, excludes, listed);
            Discover(topics, excludes, listed + [t]) == before + (
              if (|t| >= 2 && t[0] == '_' && t[1] == '_')
                || (exists p :: p in excludes && Glob(CStr(p), CStr(t)))
                || (exists p :: p in before && Glob(CStr(p), CStr(t)))
              then [] else [t])
    decreases listed
  {
    hide Internal, Matched, Glob;
    if listed == [] {
      WantedIff(topics, excludes, t);
      hide Wanted;
      assert ([] + [t])[1..] == [];
    } else {
      var next := if Wanted(topics, excludes, listed[0]) then topics + [listed[0]] else topics;
      hide Wanted;
      OneMoreListed(next, excludes, listed[1..], t);
      assert (listed + [t])[1..] == listed[1..] + [t];
    }
  }

  lemma {:induction false} NoneWanted(topics: seq<string>, excludes: seq<string>, listed: seq<string>, j: nat)
    requires j < |listed|
    ensures !Wanted(Discover(topics, excludes, listed), excludes, listed[j])
    decreases listed
  {
    var t := listed[0];
    var next := if Wanted(topics, excludes, t) then topics + [t] else topics;
    if j > 0 {
      NoneWanted(next, excludes, listed[1..], j - 1);
    } else if !Internal(t) && !Matched(excludes, t) {
      if Wanted(topics, excludes, t) {
        MatchedByItself(next, |topics|);
      }
      MatchedMonotone(next, Discover(topics, excludes, listed), t);
    }
  }

  /** After a pass every listed topic is internal, excluded or subscribed to. */
  lemma CoversListing(topics: seq<string>, excludes: seq<string>, listed: seq<string>, j: nat)
    requires j < |listed|
    ensures var t := listed[j];
            || (|t| >= 2 && t[0] == '_' && t[1] == '_')
            || (exists p :: p in excludes && Glob(CStr(p), CStr(t)))
            || (exists p :: p in Discover(topics, excludes, listed) && Glob(CStr(p), CStr(t)))
  {
    NoneWanted(topics, excludes, listed, j);
    WantedIff(Discover(topics, excludes, listed), excludes, listed[j]);
  }

  /** Nothing wanted in the listing means nothing is added. */
  lemma {:induction false} NothingWanted(topics: seq<string>, excludes: seq<string>, listed: seq<string>)
    requires forall j :: 0 <= j < |listed| ==> !Wanted(topics, excludes, listed[j])
    ensures Discover(topics, excludes, listed) == topics
    decreases listed
  {
    if listed != [] {
      assert !Wanted(topics, excludes, listed[0]);
      forall j | 0 <= j < |listed| - 1
        ensures !Wanted(topics, excludes, listed[1..][j])
      {
        assert listed[1..][j] == listed[j + 1];
      }
      NothingWanted(topics, excludes, listed[1..]);
    }
  }

  /** A second pass over the same metadata adds nothing. */
  lemma DiscoveryFixpoint(topics: seq<string>, excludes: seq<string>, listed: seq<string>)
    ensures var after := Discover(topics, excludes, listed);
            Discover(after, excludes, listed) == after
  {
    var after := Discover(topics, excludes, listed);
    forall j | 0 <= j < |listed|
      ensures !Wanted(after, excludes, listed[j])
    {
      NoneWanted(topics, excludes, listed, j);
    }
    NothingWanted(after, excludes, listed);
  }

  /** No topic is ever subscribed to twice, whatever wildcards the names contain. */
  lemma StaysDuplicateFree(topics: seq<string>, excludes: seq<string>, listed: seq<string>)
    requires DuplicateFree(topics)
    ensures DuplicateFree(Discover(topics, excludes, listed))
  {
    var after := Discover(topics, excludes, listed);
    forall i, j | 0 <= i < j < |after|
      ensures after[i] != after[j]
    {
      if j < |topics| {
        assert after[i] == topics[i] && after[j] == topics[j];
      } else {
        AddsWanted(topics, excludes, listed, j);
        assert after[..j][i] == after[i];
        MatchedByItself(after[..j], i);
      }
    }
  }
}
