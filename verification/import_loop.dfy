/** The entry loop of ElementorContent::import: every entry of every
    recognised post type is imported, recorded as succeeded or failed, and
    followed by one progress value. */
module ImportLoop {
  import opened Basics
  import opened OrderedMaps
  import opened PhpValues
  import opened EntryImport

  /** The entries of one post type, keyed by entry id. */
  type Entries = OMap<EntrySettings>

  /** The manifest's `content`: entries grouped by post type. */
  type Contents = OMap<Entries>

  /** The collaborators the loop consults: WordPress's post-type registry
      (`post_type_exists`) and, per post type and entry id, what the document
      factory and the payload file do. */
  datatype Host = Host(postTypeExists: string -> bool, entry: (string, string) -> EntryOutcome)

  /** `$results[$post_type]`: the succeeded entries (id to document id) and
      the failed ones (id to the falsy value returned). */
  datatype TypeResult = TypeResult(succeed: OMap<Value>, failed: OMap<Value>)

  /** The outcome of the inner loop over one post type's entries. */
  datatype Batch = Batch(result: TypeResult, log: seq<int>)

  /** The outcome of the whole loop: results by post type and the progress
      values emitted, in order. */
  datatype Pass = Pass(results: OMap<TypeResult>, log: seq<int>)

  /** `$total`: the number of entries under all post types, recognised or not. */
  function Total(cs: Contents): nat
  {
    if |cs| == 0 then 0 else |cs[0].1| + Total(cs[1..])
  }

  /** `$total` is 0 exactly when no post type has an entry. */
  lemma {:induction false} TotalZero(cs: Contents)
    ensures Total(cs) == 0 <==> forall i :: 0 <= i < |cs| ==> |cs[i].1| == 0
  {
    if |cs| > 0 {
      TotalZero(cs[1..]);
      assert forall i :: 0 < i < |cs| ==> cs[i] == cs[1..][i - 1];
    }
  }

  /** The number of entries under recognised post types: the ones the loop
      processes. */
  function ProcessedCount(cs: Contents, recognised: string -> bool): (n: nat)
    ensures n <= Total(cs)
  {
    if |cs| == 0 then 0
    else (if recognised(cs[0].0) then |cs[0].1| else 0) + ProcessedCount(cs[1..], recognised)
  }

  /** `floor((100 * $processed) / $total)`. */
  function Percent(processed: nat, total: nat): (p: nat)
    requires 0 < total
    ensures p * total <= 100 * processed < (p + 1) * total
  {
    (100 * processed) / total
  }

  /** What importing entry `e` of post type `postType` returns. */
  function EntryValue(host: Host, postType: string, e: (string, EntrySettings)): Value
  {
    ImportPostTypeContent(postType, e.0, e.1, host.entry(postType, e.0)).result
  }

  /** The inner `foreach`: `done` entries were processed before these. */
  function ImportEntries(postType: string, es: Entries, host: Host, total: nat, done: nat): (b: Batch)
    requires done + |es| <= total
    decreases |es|
  {
    if |es| == 0 then Batch(TypeResult([], []), [])
    else
      var v := EntryValue(host, postType, es[0]);
      var rest := ImportEntries(postType, es[1..], host, total, done + 1);
      var result :=
        if Truthy(v) then rest.result.(succeed := [(es[0].0, v)] + rest.result.succeed)
        else rest.result.(failed := [(es[0].0, v)] + rest.result.failed);
      Batch(result, [Percent(done + 1, total)] + rest.log)
  }

  /** The outer `foreach`: unrecognised post types are skipped without
      counting as processed; a post type gets an entry in the results once one
      of its entries has been processed. */
  function ImportTypes(cs: Contents, host: Host, total: nat, done: nat): (p: Pass)
    requires done + Total(cs) <= total
    decreases |cs|
  {
    if |cs| == 0 then Pass([], [])
    else if !host.postTypeExists(cs[0].0) then ImportTypes(cs[1..], host, total, done)
    else
      var b := ImportEntries(cs[0].0, cs[0].1, host, total, done);
      var rest := ImportTypes(cs[1..], host, total, done + |cs[0].1|);
      Pass((if |cs[0].1| == 0 then [] else [(cs[0].0, b.result)]) + rest.results, b.log + rest.log)
  }

  /** Entry `id` with import value `v` is recorded in exactly one of the two
      maps: under `succeed` when `v` is truthy, under `failed` otherwise. */
  ghost predicate RecordedOnce(tr: TypeResult, id: string, v: Value)
  {
    if Truthy(v) then Get(tr.succeed, id) == Some(v) && id !in Keys(tr.failed)
    else Get(tr.failed, id) == Some(v) && id !in Keys(tr.succeed)
  }

  /** `tr` partitions the entries `es`: each is recorded exactly once with the
      value its import returned, succeeded values are truthy, failed ones are
      falsy, and nothing else is recorded. */
  ghost predicate Partitions(tr: TypeResult, postType: string, es: Entries, host: Host)
  {
    && (forall j :: 0 <= j < |es| ==> RecordedOnce(tr, es[j].0, EntryValue(host, postType, es[j])))
    && (forall q :: q in tr.succeed ==> Truthy(q.1) && q.0 in Keys(es))
    && (forall q :: q in tr.failed ==> !Truthy(q.1) && q.0 in Keys(es))
    && UniqueKeys(tr.succeed) && UniqueKeys(tr.failed)
    && |tr.succeed| + |tr.failed| == |es|
  }

  /** A map whose every key lies in `ks` has all its `Keys` in `ks`. */
  lemma KeysWithin(m: OMap<Value>, ks: seq<string>)
    requires forall q :: q in m ==> q.0 in ks
    ensures forall k :: k in Keys(m) ==> k in ks
  {
    forall k | k in Keys(m)
      ensures k in ks
    {
      var i :| 0 <= i < |m| && Keys(m)[i] == k;
      assert m[i] in m;
    }
  }

  /** The inner loop emits one value per entry, the k-th being the percentage
      of `done + k + 1` processed entries out of `total`. */
  lemma {:induction false} EntriesProgress(postType: string, es: Entries, host: Host, total: nat, done: nat)
    requires done + |es| <= total
    ensures |ImportEntries(postType, es, host, total, done).log| == |es|
    ensures PercentRun(ImportEntries(postType, es, host, total, done).log, total, done)
  {
    if |es| > 0 {
      EntriesProgress(postType, es[1..], host, total, done + 1);
      var first := [Percent(done + 1, total)];
      var rest := ImportEntries(postType, es[1..], host, total, done + 1).log;
      assert ImportEntries(postType, es, host, total, done).log == first + rest;
      PercentRunConcat(first, rest, total, done);
    }
  }

  /** The inner loop partitions the entries of one post type. */
  lemma {:induction false} EntriesPartition(postType: string, es: Entries, host: Host, total: nat, done: nat)
    requires done + |es| <= total
    requires UniqueKeys(es)
    ensures Partitions(ImportEntries(postType, es, host, total, done).result, postType, es, host)
  {
    if |es| > 0 {
      var id0 := es[0].0;
      var v0 := EntryValue(host, postType, es[0]);
      var tail := es[1..];
      assert UniqueKeys(tail);
      EntriesPartition(postType, tail, host, total, done + 1);
      var rest := ImportEntries(postType, tail, host, total, done + 1).result;
      var tr := ImportEntries(postType, es, host, total, done).result;
      assert id0 !in Keys(tail) by {
        forall i | 0 <= i < |tail| ensures Keys(tail)[i] != id0 {
          assert tail[i] == es[i + 1];
        }
      }
      KeysWithin(rest.succeed, Keys(tail));
      KeysWithin(rest.failed, Keys(tail));
      assert Keys(es) == [id0] + Keys(tail);
      if Truthy(v0) {
        assert tr == rest.(succeed := [(id0, v0)] + rest.succeed);
        ConsUnique((id0, v0), rest.succeed);
      } else {
        assert tr == rest.(failed := [(id0, v0)] + rest.failed);
        ConsUnique((id0, v0), rest.failed);
      }
      forall j | 0 <= j < |es|
        ensures RecordedOnce(tr, es[j].0, EntryValue(host, postType, es[j]))
      {
        if j > 0 {
          assert es[j] == tail[j - 1];
          assert es[j].0 != id0;
          GetCons((id0, v0), rest.succeed, es[j].0);
          GetCons((id0, v0), rest.failed, es[j].0);
        }
      }
    }
  }

  /** `log` is the run of progress values emitted for the entries after the
      first `done`: the k-th value is the percentage of `done + k + 1`
      processed entries out of `total`. */
  ghost predicate PercentRun(log: seq<int>, total: nat, done: nat)
  {
    done + |log| <= total && forall k :: 0 <= k < |log| ==> log[k] == Percent(done + k + 1, total)
  }

  /** Two consecutive runs of progress values form one run. */
  lemma PercentRunConcat(a: seq<int>, b: seq<int>, total: nat, done: nat)
    requires PercentRun(a, total, done) && PercentRun(b, total, done + |a|)
    ensures PercentRun(a + b, total, done)
  {
    forall k | 0 <= k < |a + b|
      ensures (a + b)[k] == Percent(done + k + 1, total)
    {
      if k >= |a| {
        assert (a + b)[k] == b[k - |a|];
      }
    }
  }

  /** The whole loop emits one value per processed entry, the k-th being the
      percentage of `done + k + 1` processed entries out of `total`. */
  lemma {:induction false} TypesProgress(cs: Contents, host: Host, total: nat, done: nat)
    requires done + Total(cs) <= total
    ensures |ImportTypes(cs, host, total, done).log| == ProcessedCount(cs, host.postTypeExists)
    ensures PercentRun(ImportTypes(cs, host, total, done).log, total, done)
  {
    if |cs| > 0 {
      if !host.postTypeExists(cs[0].0) {
        TypesProgress(cs[1..], host, total, done);
      } else {
        var n := |cs[0].1|;
        EntriesProgress(cs[0].0, cs[0].1, host, total, done);
        TypesProgress(cs[1..], host, total, done + n);
        var b := ImportEntries(cs[0].0, cs[0].1, host, total, done).log;
        var rest := ImportTypes(cs[1..], host, total, done + n).log;
        assert ImportTypes(cs, host, total, done).log == b + rest;
        PercentRunConcat(b, rest, total, done);
      }
    }
  }

  /** Every post type of a well-formed manifest appears once, and so does
      every entry id under it (PHP arrays cannot repeat a key). */
  ghost predicate WellFormed(cs: Contents)
  {
    UniqueKeys(cs) && forall i :: 0 <= i < |cs| ==> UniqueKeys(cs[i].1)
  }

  /** The recorded results of one post type do not depend on the progress
      counters. */
  lemma {:induction false} EntriesResultIndependent(postType: string, es: Entries, host: Host,
                                                    t1: nat, d1: nat, t2: nat, d2: nat)
    requires d1 + |es| <= t1 && d2 + |es| <= t2
    ensures ImportEntries(postType, es, host, t1, d1).result == ImportEntries(postType, es, host, t2, d2).result
  {
    if |es| > 0 {
      EntriesResultIndependent(postType, es[1..], host, t1, d1 + 1, t2, d2 + 1);
    }
  }

  /** What the inner loop records for one post type. */
  function TypeResultOf(postType: string, es: Entries, host: Host): TypeResult
  {
    ImportEntries(postType, es, host, |es|, 0).result
  }

  /** The results entry post type `e.0` contributes, if any. */
  function HeadResult(e: (string, Entries), host: Host): OMap<TypeResult>
  {
    if host.postTypeExists(e.0) && |e.1| > 0 then [(e.0, TypeResultOf(e.0, e.1, host))] else []
  }

  /** One step of the outer loop: the first post type's results entry, then
      those of the remaining post types. */
  lemma TypesStep(cs: Contents, host: Host, total: nat, done: nat)
    requires |cs| > 0 && done + Total(cs) <= total
    ensures var n := if host.postTypeExists(cs[0].0) then |cs[0].1| else 0;
      done + n + Total(cs[1..]) <= total &&
      ImportTypes(cs, host, total, done).results ==
        HeadResult(cs[0], host) + ImportTypes(cs[1..], host, total, done + n).results
  {
    if host.postTypeExists(cs[0].0) {
      EntriesResultIndependent(cs[0].0, cs[0].1, host, total, done, |cs[0].1|, 0);
    }
  }

  /** Every post type in the loop's results is one of the manifest's. */
  lemma {:induction false} TypesResultWithin(cs: Contents, host: Host, total: nat, done: nat)
    requires done + Total(cs) <= total
    ensures forall q :: q in ImportTypes(cs, host, total, done).results ==> q.0 in Keys(cs)
  {
    if |cs| > 0 {
      var n := if host.postTypeExists(cs[0].0) then |cs[0].1| else 0;
      TypesStep(cs, host, total, done);
      TypesResultWithin(cs[1..], host, total, done + n);
      assert Keys(cs) == [cs[0].0] + Keys(cs[1..]);
    }
  }

  /** The loop's results never repeat a post type. */
  lemma {:induction false} TypesResultUnique(cs: Contents, host: Host, total: nat, done: nat)
    requires done + Total(cs) <= total
    requires UniqueKeys(cs)
    ensures UniqueKeys(ImportTypes(cs, host, total, done).results)
  {
    if |cs| > 0 {
      var pt := cs[0].0;
      var tail := cs[1..];
      var n := if host.postTypeExists(pt) then |cs[0].1| else 0;
      TypesStep(cs, host, total, done);
      assert UniqueKeys(tail);
      TypesResultUnique(tail, host, total, done + n);
      TypesResultWithin(tail, host, total, done + n);
      var rest := ImportTypes(tail, host, total, done + n).results;
      var h := HeadResult(cs[0], host);
      if |h| > 0 {
        assert pt !in Keys(tail) by {
          forall i | 0 <= i < |tail| ensures Keys(tail)[i] != pt {
            assert tail[i] == cs[i + 1];
          }
        }
        assert pt !in Keys(rest) by {
          forall i | 0 <= i < |rest| ensures Keys(rest)[i] != pt {
            assert rest[i] in rest;
          }
        }
        assert h == [h[0]];
        ConsUnique(h[0], rest);
      }
    }
  }

  /** A post type has an entry in the loop's results exactly when it is
      recognised and has entries. */
  lemma {:induction false} TypesResultMembership(cs: Contents, host: Host, total: nat, done: nat)
    requires done + Total(cs) <= total
    requires UniqueKeys(cs)
    ensures forall i :: 0 <= i < |cs| ==>
      (cs[i].0 in Keys(ImportTypes(cs, host, total, done).results) <==>
        host.postTypeExists(cs[i].0) && |cs[i].1| > 0)
  {
    if |cs| > 0 {
      var pt := cs[0].0;
      var tail := cs[1..];
      var n := if host.postTypeExists(pt) then |cs[0].1| else 0;
      TypesStep(cs, host, total, done);
      assert UniqueKeys(tail);
      TypesResultMembership(tail, host, total, done + n);
      TypesResultWithin(tail, host, total, done + n);
      var rest := ImportTypes(tail, host, total, done + n).results;
      var all := ImportTypes(cs, host, total, done).results;
      var h := HeadResult(cs[0], host);
      assert pt !in Keys(tail) by {
        forall i | 0 <= i < |tail| ensures Keys(tail)[i] != pt {
          assert tail[i] == cs[i + 1];
        }
      }
      assert pt !in Keys(rest) by {
        forall i | 0 <= i < |rest| ensures Keys(rest)[i] != pt {
          assert rest[i] in rest;
        }
      }
      if |h| > 0 {
        assert all == [h[0]] + rest;
        assert Keys(all)[0] == pt;
      } else {
        assert all == rest;
      }
      forall i | 0 <= i < |cs| && i > 0
        ensures cs[i].0 in Keys(all) <==> cs[i].0 in Keys(rest)
      {
        assert cs[i] == tail[i - 1];
        if |h| > 0 {
          GetCons(h[0], rest, cs[i].0);
        }
      }
    }
  }

  /** Each recognised post type with entries holds, in the loop's results,
      what the inner loop recorded for it. */
  lemma {:induction false} TypesResultValues(cs: Contents, host: Host, total: nat, done: nat)
    requires done + Total(cs) <= total
    requires UniqueKeys(cs)
    ensures forall i :: 0 <= i < |cs| && host.postTypeExists(cs[i].0) && |cs[i].1| > 0 ==>
      Get(ImportTypes(cs, host, total, done).results, cs[i].0) == Some(TypeResultOf(cs[i].0, cs[i].1, host))
  {
    if |cs| > 0 {
      var pt := cs[0].0;
      var tail := cs[1..];
      var n := if host.postTypeExists(pt) then |cs[0].1| else 0;
      TypesStep(cs, host, total, done);
      assert UniqueKeys(tail);
      TypesResultValues(tail, host, total, done + n);
      var rest := ImportTypes(tail, host, total, done + n).results;
      var all := ImportTypes(cs, host, total, done).results;
      var h := HeadResult(cs[0], host);
      assert all == h + rest;
      forall i | 0 <= i < |cs| && host.postTypeExists(cs[i].0) && |cs[i].1| > 0
        ensures Get(all, cs[i].0) == Some(TypeResultOf(cs[i].0, cs[i].1, host))
      {
        if i == 0 {
          assert all[0] == (pt, TypeResultOf(pt, cs[0].1, host));
        } else {
          assert cs[i] == tail[i - 1];
          assert cs[i].0 != pt;
          assert Get(rest, cs[i].0) == Some(TypeResultOf(cs[i].0, cs[i].1, host));
          if |h| > 0 {
            assert all == [h[0]] + rest;
            GetCons(h[0], rest, cs[i].0);
          } else {
            assert all == rest;
          }
        }
      }
    }
  }

  /** The result partition of the whole loop: a post type has a results
      entry exactly when it is recognised and has entries, and that entry
      partitions its entries into succeeded and failed ones. */
  lemma TypesPartition(cs: Contents, host: Host, total: nat, done: nat)
    requires done + Total(cs) <= total
    requires WellFormed(cs)
    ensures forall i :: 0 <= i < |cs| ==>
      (cs[i].0 in Keys(ImportTypes(cs, host, total, done).results) <==>
        host.postTypeExists(cs[i].0) && |cs[i].1| > 0)
    ensures forall i :: 0 <= i < |cs| && cs[i].0 in Keys(ImportTypes(cs, host, total, done).results) ==>
      Partitions(Get(ImportTypes(cs, host, total, done).results, cs[i].0).value, cs[i].0, cs[i].1, host)
    ensures forall q :: q in ImportTypes(cs, host, total, done).results ==> q.0 in Keys(cs)
    ensures UniqueKeys(ImportTypes(cs, host, total, done).results)
  {
    TypesResultWithin(cs, host, total, done);
    TypesResultUnique(cs, host, total, done);
    TypesResultMembership(cs, host, total, done);
    TypesResultValues(cs, host, total, done);
    forall i | 0 <= i < |cs| && host.postTypeExists(cs[i].0) && |cs[i].1| > 0
      ensures Partitions(TypeResultOf(cs[i].0, cs[i].1, host), cs[i].0, cs[i].1, host)
    {
      EntriesPartition(cs[i].0, cs[i].1, host, |cs[i].1|, 0);
    }
  }

  /** Multiplying by a non-negative factor keeps the order. */
  lemma MulMonotone(x: int, y: int, t: nat)
    requires x <= y
    ensures x * t <= y * t
  {
    assert y * t - x * t == (y - x) * t;
  }

  /** Raising the number of processed entries never lowers the percentage. */
  lemma PercentMonotone(a: nat, b: nat, total: nat)
    requires 0 < total && a <= b
    ensures Percent(a, total) <= Percent(b, total)
  {
    var pa, pb := Percent(a, total), Percent(b, total);
    if pa > pb {
      MulMonotone(pb + 1, pa, total);
      assert false;
    }
  }

  /** The percentage stays within 0..100 and reaches 100 exactly when every
      entry counted in `total` has been processed. */
  lemma PercentBounds(a: nat, total: nat)
    requires 0 < a <= total
    ensures 0 <= Percent(a, total) <= 100
    ensures Percent(a, total) == 100 <==> a == total
  {
    var p := Percent(a, total);
    MulMonotone(a, total, 100);
    if p > 100 {
      MulMonotone(101, p, total);
      assert false;
    }
    if a < total {
      MulMonotone(a + 1, total, 100);
      if p == 100 {
        assert false;
      }
    } else if p < 100 {
      MulMonotone(p + 1, 100, total);
      assert false;
    }
  }

  /** The emitted progress values, as a sequence of percentages over
      1..|log| processed entries, are bounded, non-decreasing, and end at 100
      exactly when all `total` entries were processed. */
  lemma ProgressShape(log: seq<int>, total: nat)
    requires PercentRun(log, total, 0)
    ensures forall k :: 0 <= k < |log| ==> 0 <= log[k] <= 100
    ensures forall a, b :: 0 <= a <= b < |log| ==> log[a] <= log[b]
    ensures |log| > 0 ==> (log[|log| - 1] == 100 <==> |log| == total)
  {
    forall k | 0 <= k < |log| ensures 0 <= log[k] <= 100 {
      PercentBounds(k + 1, total);
    }
    forall a, b | 0 <= a <= b < |log| ensures log[a] <= log[b] {
      PercentMonotone(a + 1, b + 1, total);
    }
    if |log| > 0 {
      PercentBounds(|log|, total);
    }
  }

  /** Every entry is processed exactly when every post type that has entries
      is recognised. */
  lemma {:induction false} ProcessedAll(cs: Contents, recognised: string -> bool)
    ensures ProcessedCount(cs, recognised) == Total(cs) <==>
      forall i :: 0 <= i < |cs| && |cs[i].1| > 0 ==> recognised(cs[i].0)
  {
    if |cs| > 0 {
      ProcessedAll(cs[1..], recognised);
      if forall i :: 0 <= i < |cs| && |cs[i].1| > 0 ==> recognised(cs[i].0) {
        forall i | 0 <= i < |cs[1..]| && |cs[1..][i].1| > 0 ensures recognised(cs[1..][i].0) {
          assert cs[1..][i] == cs[i + 1];
        }
      } else {
        var i :| 0 <= i < |cs| && |cs[i].1| > 0 && !recognised(cs[i].0);
        if i > 0 {
          assert cs[1..][i - 1] == cs[i];
        }
      }
    }
  }
}
