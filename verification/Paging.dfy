/** Finding the objects to replay: paging through a bucket listing and filtering by time. */
module Paging {
  import opened Text
  import opened Keys
  import Time = MessageTime

  /** S3 lists keys in ascending order; no key is empty. */
  ghost predicate Listing(ks: seq<string>) {
    Ascending(ks) && forall i :: 0 <= i < |ks| ==> ks[i] != ""
  }

  function Under(prefix: string, ks: seq<string>): (r: seq<string>)
    ensures forall i :: 0 <= i < |r| ==> prefix <= r[i] && r[i] in ks
  {
    if ks == [] then []
    else
      var last := ks[|ks| - 1];
      Under(prefix, ks[..|ks| - 1]) + if prefix <= last then [last] else []
  }

  /** The keys behind a marker. */
  function After(ks: seq<string>, marker: Option<string>): seq<string> {
    if marker.None? || ks == [] then ks
    else if LexLess(marker.value, ks[0]) then ks
    else After(ks[1..], marker)
  }

  /** The key passes the time filter of a replay. */
  predicate Passes(prefix: string, from: Time.Time, key: string) {
    prefix <= key && Time.Greater(Time.Parse(CleanupName(prefix, key)), from)
  }

  function Selected(prefix: string, from: Time.Time, ks: seq<string>): seq<string> {
    if ks == [] then []
    else
      var last := ks[|ks| - 1];
      Selected(prefix, from, ks[..|ks| - 1]) + if Passes(prefix, from, last) then [last] else []
  }

  lemma {:induction false} UnderAscending(prefix: string, ks: seq<string>)
    requires Listing(ks)
    ensures Listing(Under(prefix, ks))
    ensures forall i :: 0 <= i < |Under(prefix, ks)| ==> prefix <= Under(prefix, ks)[i]
    decreases ks
  {
    if ks != [] {
      var front, last := ks[..|ks| - 1], ks[|ks| - 1];
      UnderAscending(prefix, front);
      forall i | 0 <= i < |Under(prefix, front)|
        ensures LexLess(Under(prefix, front)[i], last)
      {
        var k :| 0 <= k < |front| && front[k] == Under(prefix, front)[i];
        assert ks[k] == front[k];
      }
    }
  }

  /** The keys behind one of the listed keys are those that follow it. */
  lemma {:induction false} AfterKey(ks: seq<string>, i: nat)
    requires Ascending(ks) && i < |ks|
    ensures After(ks, Some(ks[i])) == ks[i + 1..]
    decreases ks
  {
    LexTotal(ks[i], ks[0]);
    if i == 0 {
      if |ks| > 1 {
        assert LexLess(ks[0], ks[1]);
      }
    } else {
      assert LexLess(ks[0], ks[i]);
      AfterKey(ks[1..], i - 1);
    }
  }

  lemma {:induction false} SelectedMember(prefix: string, from: Time.Time, ks: seq<string>, key: string)
    ensures key in Selected(prefix, from, ks) <==> key in ks && Passes(prefix, from, key)
    decreases ks
  {
    hide Passes;
    if ks != [] {
      SelectedMember(prefix, from, ks[..|ks| - 1], key);
      assert ks == ks[..|ks| - 1] + [ks[|ks| - 1]];
    }
  }

  /** Selecting keeps the listing's order, so no key is selected twice. */
  lemma {:induction false} SelectedAscending(prefix: string, from: Time.Time, ks: seq<string>)
    requires Ascending(ks)
    ensures Ascending(Selected(prefix, from, ks))
    decreases ks
  {
    hide Passes;
    if ks != [] {
      var front, last := ks[..|ks| - 1], ks[|ks| - 1];
      SelectedAscending(prefix, from, front);
      var s := Selected(prefix, from, front);
      forall i | 0 <= i < |s|
        ensures LexLess(s[i], last)
      {
        SelectedMember(prefix, from, front, s[i]);
        var k :| 0 <= k < |front| && front[k] == s[i];
        assert ks[k] == front[k];
      }
    }
  }

  /** The bucket behind the S3 client. It answers a listing request with a page of its own
      choosing, or fails. */
  class S3 {
    const bucket: seq<string>
    var failures: nat

    constructor (bucket: seq<string>)
      ensures this.bucket == bucket && failures == 0
    {
      this.bucket := bucket;
      failures := 0;
    }

    method List(prefix: string, maxKeys: int, marker: Option<string>) returns (ok: bool, page: seq<string>)
      modifies this
      ensures !ok ==> page == [] && failures == old(failures) + 1
      ensures ok ==> failures == old(failures)
      ensures ok ==> var rest := After(Under(prefix, bucket), marker);
                     page <= rest && (page == [] ==> rest == []) && (maxKeys > 0 ==> |page| <= maxKeys)
    {
      ok := *;
      page := [];
      if !ok {
        failures := failures + 1;
        return;
      }
      var rest := After(Under(prefix, bucket), marker);
      if rest != [] {
        var n: nat :| 1 <= n <= |rest| && (maxKeys > 0 ==> n <= maxKeys);
        page := rest[..n];
      }
    }
  }

  /** The next request: behind the last key seen, or from the start. */
  method NextPage(prefix: string, fetch: int, s3: S3, lastkey: string, ghost listing: seq<string>, ghost n: nat)
    returns (ok: bool, vlist: seq<string>)
    requires listing == Under(prefix, s3.bucket) && Listing(listing) && n <= |listing|
    requires lastkey == if n == 0 then "" else listing[n - 1]
    modifies s3
    ensures s3.failures == old(s3.failures) + if ok then 0 else 1
    ensures ok ==> n + |vlist| <= |listing| && vlist == listing[n..n + |vlist|]
    ensures ok && vlist == [] ==> n == |listing|
  {
    if |lastkey| > 0 {
      AfterKey(listing, n - 1);
      ok, vlist := s3.List(prefix, fetch, Some(lastkey));
    } else {
      ok, vlist := s3.List(prefix, fetch, None);
    }
  }

  /** One page of keys: each is cleaned up, parsed and compared. */
  method FilterPage(prefix: string, from: Time.MessageTime, page: seq<string>, ghost listing: seq<string>, ghost n: nat,
                    output: seq<string>, ghost before: seq<string>, lastkey: string)
    returns (output': seq<string>, lastkey': string)
    requires n + |page| <= |listing| && page == listing[n..n + |page|]
    requires forall i :: 0 <= i < |page| ==> prefix <= page[i]
    requires output == before + Selected(prefix, from.Value(), listing[..n])
    ensures output' == before + Selected(prefix, from.Value(), listing[..n + |page|])
    ensures lastkey' == if page == [] then lastkey else page[|page| - 1]
  {
    hide Time.Greater, Time.Parse, CleanupName;
    output', lastkey' := output, lastkey;
    for itor := 0 to |page|
      invariant output' == before + Selected(prefix, from.Value(), listing[..n + itor])
      invariant lastkey' == if itor == 0 then lastkey else page[itor - 1]
    {
      var key := page[itor];
      assert listing[..n + itor + 1][..n + itor] == listing[..n + itor] && listing[n + itor] == key;
      var cleaned := CleanupName(prefix, key);
      var t := new Time.MessageTime.FromText(cleaned);
      var later := t.IsGreater(from);
      if later {
        output' := output' + [key];
      }
      lastkey' := key;
    }
  }

  /** s3_discovery: whatever pages the bucket serves, the loop ends, and what it adds is the
      selection of the whole listing of the prefix; if a request failed, the selection of a
      part of the listing from its start. */
  method S3Discovery(prefix: string, from: Time.MessageTime, s3: S3, output: seq<string>, fetch: int := 50)
    returns (output': seq<string>)
    requires Listing(s3.bucket)
    modifies s3
    ensures var listing := Under(prefix, s3.bucket);
            exists n | 0 <= n <= |listing| :: output' == output + Selected(prefix, from.Value(), listing[..n])
    ensures s3.failures == old(s3.failures) ==>
            output' == output + Selected(prefix, from.Value(), Under(prefix, s3.bucket))
  {
    hide Selected, Under;
    ghost var listing := Under(prefix, s3.bucket);
    UnderAscending(prefix, s3.bucket);
    ghost var n := 0;
    var lastkey := "";
    output' := output;
    assert output == output + Selected(prefix, from.Value(), listing[..0]) by {
      SelectedNone(prefix, from.Value());
    }
    while true
      invariant 0 <= n <= |listing|
      invariant lastkey == if n == 0 then "" else listing[n - 1]
      invariant output' == output + Selected(prefix, from.Value(), listing[..n])
      invariant s3.failures == old(s3.failures)
      decreases |listing| - n
    {
      var ok, vlist := NextPage(prefix, fetch, s3, lastkey, listing, n);
      if !ok {
        return;
      }
      if |vlist| < 1 {
        assert listing[..n] == listing;
        return;
      }
      output', lastkey := FilterPage(prefix, from, vlist, listing, n, output', output, lastkey);
      n := n + |vlist|;
    }
  }

  lemma SelectedNone(prefix: string, from: Time.Time)
    ensures Selected(prefix, from, []) == []
  {
  }
}
