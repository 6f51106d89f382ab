/** The facade's `OrderedDict` of limiters (app/middleware/rate_limiter.py:41): a list of entries,
    least recently used first. `L` stands for whatever identifies a limiter object. */
module LruTable {
  import opened Prelude

  /** A limiter and when it was made: a hit puts the entry back unchanged, so the time is not
      that of the last use. */
  datatype Entry<L> = Entry(key: string, limiter: L, created: real)

  function Names<L>(t: seq<Entry<L>>): (ks: seq<string>)
    ensures |ks| == |t| && forall i :: 0 <= i < |t| ==> ks[i] == t[i].key
  {
    seq(|t|, i requires 0 <= i < |t| => t[i].key)
  }

  function Find<L>(t: seq<Entry<L>>, key: string): (r: Option<Entry<L>>)
    ensures r.Some? ==> r.value in t && r.value.key == key
    ensures r.None? <==> key !in Names(t)
    decreases |t|
  {
    if t == [] then None
    else if t[0].key == key then Some(t[0])
    else
      var r := Find(t[1..], key);
      assert forall i :: 0 <= i < |t[1..]| ==> Names(t)[i + 1] == Names(t[1..])[i];
      r
  }

  /** The table after the entry for `key`, if there is one, is popped. */
  function Without<L>(t: seq<Entry<L>>, key: string): (r: seq<Entry<L>>)
    ensures Names(r) == Remove(Names(t), key)
    decreases |t|
  {
    if t == [] then []
    else
      assert Names(t)[1..] == Names(t[1..]);
      if t[0].key == key then t[1..] else [t[0]] + Without(t[1..], key)
  }

  function Remove(ks: seq<string>, key: string): seq<string>
    decreases |ks|
  {
    if ks == [] then [] else if ks[0] == key then ks[1..] else [ks[0]] + Remove(ks[1..], key)
  }

  /** Whether a lookup at `now` keeps the limiter it finds. */
  predicate Hit<L>(t: seq<Entry<L>>, key: string, now: real, ttl: real) {
    var found := Find(t, key);
    found.Some? && now - found.value.created < ttl
  }

  /** The table after a lookup that makes `made` if it needs a new limiter. */
  function Touch<L>(t: seq<Entry<L>>, key: string, made: L, now: real, ttl: real, maxKeys: nat): seq<Entry<L>> {
    var found := Find(t, key);
    if Hit(t, key, now, ttl) then Without(t, key) + [found.value]
    else Newest(Without(t, key) + [Entry(key, made, now)], maxKeys)
  }

  predicate Unique(ks: seq<string>) {
    forall i, j :: 0 <= i < j < |ks| ==> ks[i] != ks[j]
  }

  lemma {:induction false} WithoutMembers<L>(t: seq<Entry<L>>, key: string)
    requires Unique(Names(t))
    ensures Unique(Names(Without(t, key))) && key !in Names(Without(t, key))
    ensures |Without(t, key)| == |t| - if Find(t, key).Some? then 1 else 0
    ensures forall e :: e in Without(t, key) ==> e in t && e.key != key
    decreases |t|
  {
    RemoveUnique(Names(t), key);
    RemoveShortens(Names(t), key);
    assert |Names(Without(t, key))| == |Without(t, key)|;
    if t != [] {
      assert Names(t)[1..] == Names(t[1..]);
      WithoutMembers(t[1..], key);
      assert t == [t[0]] + t[1..];
      if t[0].key == key {
        forall e | e in t[1..] ensures e.key != key {
          var i :| 0 <= i < |t[1..]| && t[1..][i] == e;
          assert Names(t)[i + 1] != Names(t)[0];
        }
      }
    }
  }

  lemma {:induction false} UniqueAppend<L>(t: seq<Entry<L>>, e: Entry<L>)
    requires Unique(Names(t)) && e.key !in Names(t)
    ensures Unique(Names(t + [e]))
  {
    assert Names(t + [e]) == Names(t) + [e.key];
  }

  lemma {:induction false} UniqueNewest<L>(t: seq<Entry<L>>, most: nat)
    requires Unique(Names(t))
    ensures Unique(Names(Newest(t, most))) && |Newest(t, most)| <= most
    ensures forall e :: e in Newest(t, most) ==> e in t
  {
    assert Names(Newest(t, most)) == Newest(Names(t), most);
  }

  lemma {:induction false} FindByName<L>(t: seq<Entry<L>>, e: Entry<L>)
    requires Unique(Names(t)) && e in t
    ensures Find(t, e.key) == Some(e)
    decreases |t|
  {
    if t[0] != e {
      assert t == [t[0]] + t[1..];
      assert Names(t)[1..] == Names(t[1..]);
      var i :| 0 <= i < |t| && t[i] == e;
      assert Names(t)[i] != Names(t)[0];
      FindByName(t[1..], e);
    }
  }

  /** What a lookup leaves: entries that were there, and the new one if it missed. */
  lemma {:induction false} TouchUnique<L>(t: seq<Entry<L>>, key: string, made: L, now: real, ttl: real, maxKeys: nat)
    requires Unique(Names(t))
    ensures var r := Touch(t, key, made, now, ttl, maxKeys);
            && Unique(Names(r))
            && (forall e :: e in r ==> e in t || (e == Entry(key, made, now) && !Hit(t, key, now, ttl)))
            && (forall e :: e in r && e.key != key ==> e in t)
  {
    var rest := Without(t, key);
    var e := if Hit(t, key, now, ttl) then Find(t, key).value else Entry(key, made, now);
    WithoutMembers(t, key);
    UniqueAppend(rest, e);
    if !Hit(t, key, now, ttl) {
      UniqueNewest(rest + [e], maxKeys);
    }
  }

  // ----- Least recently used order

  /** The distinct keys of a run of lookups, in the order of their last use. */
  function Recency(ks: seq<string>): seq<string>
    decreases |ks|
  {
    if ks == [] then []
    else
      var n := |ks| - 1;
      Remove(Recency(ks[..n]), ks[n]) + [ks[n]]
  }

  /** The keys used after the last use of `key`. */
  function OthersSince(ks: seq<string>, key: string): set<string>
    decreases |ks|
  {
    if ks == [] || ks[|ks| - 1] == key then {}
    else OthersSince(ks[..|ks| - 1], key) + {ks[|ks| - 1]}
  }

  lemma {:induction false} RemoveUnique(ks: seq<string>, key: string)
    requires Unique(ks)
    ensures Unique(Remove(ks, key)) && key !in Remove(ks, key)
    ensures forall k :: k in Remove(ks, key) <==> k in ks && k != key
    decreases |ks|
  {
    if ks != [] {
      RemoveUnique(ks[1..], key);
      assert ks == [ks[0]] + ks[1..];
      assert ks[0] !in ks[1..];
    }
  }

  lemma {:induction false} RemoveAbsent(ks: seq<string>, key: string)
    requires key !in ks
    ensures Remove(ks, key) == ks
    decreases |ks|
  {
    if ks != [] {
      RemoveAbsent(ks[1..], key);
    }
  }

  lemma {:induction false} RemoveOfConcat(a: seq<string>, b: seq<string>, key: string)
    requires key !in a || key !in b
    ensures Remove(a + b, key) == Remove(a, key) + Remove(b, key)
    decreases |a|
  {
    if a == [] {
      assert a + b == b;
    } else {
      assert (a + b)[1..] == a[1..] + b;
      if a[0] == key {
        assert key in a;
        RemoveAbsent(b, key);
      } else {
        RemoveOfConcat(a[1..], b, key);
      }
    }
  }

  lemma {:induction false} RemoveShortens(ks: seq<string>, key: string)
    ensures |Remove(ks, key)| == |ks| - if key in ks then 1 else 0
    decreases |ks|
  {
    if ks != [] && ks[0] != key {
      RemoveShortens(ks[1..], key);
    }
  }

  lemma {:induction false} RecencyUnique(ks: seq<string>)
    ensures Unique(Recency(ks))
    ensures forall k :: k in Recency(ks) <==> k in ks
    decreases |ks|
  {
    if ks != [] {
      var n := |ks| - 1;
      RecencyUnique(ks[..n]);
      RemoveUnique(Recency(ks[..n]), ks[n]);
      assert ks == ks[..n] + [ks[n]];
    }
  }

  lemma {:induction false} NewestAfterUse(order: seq<string>, key: string, maxKeys: nat)
    requires Unique(order)
    ensures var kept := Remove(Newest(order, maxKeys), key) + [key];
            && Newest(Remove(order, key) + [key], maxKeys) == Newest(kept, maxKeys)
            && (key in Newest(order, maxKeys) ==> |kept| <= maxKeys)
  {
    hide Remove, Unique;
    var cut := if |order| > maxKeys then |order| - maxKeys else 0;
    var gone, kept := order[..cut], order[cut..];
    assert order == gone + kept && kept == Newest(order, maxKeys);
    if key in kept {
      UniqueSplit(gone, kept, key);
      RemoveAbsent(gone, key);
    }
    RemoveOfConcat(gone, kept, key);
    RemoveShortens(gone, key);
    RemoveShortens(kept, key);
    assert Remove(order, key) + [key] == Remove(gone, key) + (Remove(kept, key) + [key]);
    NewestOfBack(Remove(gone, key), Remove(kept, key) + [key], maxKeys);
  }

  lemma {:induction false} UniqueSplit(a: seq<string>, b: seq<string>, key: string)
    requires Unique(a + b) && key in b
    ensures key !in a
  {
    var i :| 0 <= i < |b| && b[i] == key;
    assert (a + b)[|a| + i] == key;
    assert forall j :: 0 <= j < |a| ==> (a + b)[j] == a[j];
  }

  /** A front part does not matter when what follows is long enough, or there is none. */
  lemma {:induction false} NewestOfBack(front: seq<string>, back: seq<string>, most: nat)
    requires front == [] || |back| >= most
    ensures Newest(front + back, most) == Newest(back, most)
  {
  }

  lemma {:induction false} NamesOfTouch<L>(t: seq<Entry<L>>, key: string, made: L, now: real, ttl: real, maxKeys: nat)
    ensures var used := Remove(Names(t), key) + [key];
            Names(Touch(t, key, made, now, ttl, maxKeys)) == if Hit(t, key, now, ttl) then used else Newest(used, maxKeys)
  {
    var rest := Without(t, key);
    var e := Entry(key, made, now);
    assert Names(rest + [e]) == Names(rest) + [key];
    assert Names(Newest(rest + [e], maxKeys)) == Newest(Names(rest + [e]), maxKeys);
    if Hit(t, key, now, ttl) {
      assert Names(rest + [Find(t, key).value]) == Names(rest) + [key];
    }
  }

  /** One lookup on a table that holds the newest keys leaves it holding the newest keys. */
  lemma {:induction false} TouchKeepsNewest<L>(t: seq<Entry<L>>, order: seq<string>, key: string, made: L, now: real, ttl: real, maxKeys: nat)
    requires Unique(order) && Names(t) == Newest(order, maxKeys)
    ensures Names(Touch(t, key, made, now, ttl, maxKeys)) == Newest(Remove(order, key) + [key], maxKeys)
  {
    NewestAfterUse(order, key, maxKeys);
    NamesOfTouch(t, key, made, now, ttl, maxKeys);
  }

  /** What follows the first occurrence of `key`. */
  function Following(ks: seq<string>, key: string): seq<string>
    decreases |ks|
  {
    if ks == [] then [] else if ks[0] == key then ks[1..] else Following(ks[1..], key)
  }

  function Elements(ks: seq<string>): set<string> {
    set k | k in ks
  }

  lemma {:induction false} FollowingAppend(ks: seq<string>, key: string, k: string)
    requires key in ks
    ensures Following(ks + [k], key) == Following(ks, key) + [k]
    decreases |ks|
  {
    assert (ks + [k])[1..] == ks[1..] + [k];
    if ks[0] != key {
      FollowingAppend(ks[1..], key, k);
    }
  }

  lemma {:induction false} FollowingLast(ks: seq<string>, key: string)
    requires key !in ks
    ensures Following(ks + [key], key) == []
    decreases |ks|
  {
    if ks != [] {
      assert (ks + [key])[1..] == ks[1..] + [key];
      FollowingLast(ks[1..], key);
    }
  }

  lemma {:induction false} FollowingOfRemove(ks: seq<string>, key: string, k: string)
    requires Unique(ks) && key in ks && k != key
    ensures Elements(Following(Remove(ks, k), key)) == Elements(Following(ks, key)) - {k}
    decreases |ks|
  {
    assert ks == [ks[0]] + ks[1..];
    if ks[0] == key {
      RemoveUnique(ks[1..], k);
    } else if ks[0] == k {
      FollowingSubset(ks[1..], key);
      assert k !in ks[1..];
    } else {
      FollowingOfRemove(ks[1..], key, k);
    }
  }

  lemma {:induction false} FollowingSubset(ks: seq<string>, key: string)
    ensures forall k :: k in Following(ks, key) ==> k in ks
    decreases |ks|
  {
    if ks != [] && ks[0] != key {
      FollowingSubset(ks[1..], key);
    }
  }

  /** What follows a key in last-use order is what was used since its last use. */
  lemma {:induction false} FollowingIsOthersSince(ks: seq<string>, key: string)
    requires key in ks
    ensures Elements(Following(Recency(ks), key)) == OthersSince(ks, key)
    decreases |ks|
  {
    var n := |ks| - 1;
    var before, k := ks[..n], ks[n];
    var order := Recency(before);
    RecencyUnique(before);
    RemoveUnique(order, k);
    if k == key {
      FollowingLast(Remove(order, k), key);
    } else {
      assert ks == before + [k];
      FollowingIsOthersSince(before, key);
      FollowingOfRemove(order, key, k);
      FollowingAppend(Remove(order, k), key, k);
      var following := Following(Remove(order, k), key);
      assert Elements(following + [k]) == Elements(following) + {k};
    }
  }

  lemma {:induction false} UniqueCount(ks: seq<string>)
    requires Unique(ks)
    ensures |Elements(ks)| == |ks|
    decreases |ks|
  {
    if ks != [] {
      var n := |ks| - 1;
      UniqueCount(ks[..n]);
      assert ks == ks[..n] + [ks[n]];
      assert Elements(ks) == Elements(ks[..n]) + {ks[n]};
      assert ks[n] !in ks[..n];
    } else {
      assert Elements(ks) == {};
    }
  }

  lemma {:induction false} PositionByFollowing(ks: seq<string>, key: string) returns (i: nat)
    requires key in ks
    ensures i < |ks| && ks[i] == key && Following(ks, key) == ks[i + 1..]
    decreases |ks|
  {
    if ks[0] == key {
      i := 0;
    } else {
      var r := PositionByFollowing(ks[1..], key);
      i := r + 1;
      assert ks[1..][r + 1..] == ks[i + 1..];
    }
  }

  /** A key that has been used is still in the table if and only if fewer than `maxKeys` distinct
      other keys were used since its last use. */
  lemma {:induction false} KeptIff(ks: seq<string>, key: string, maxKeys: nat)
    requires key in ks
    ensures key in Newest(Recency(ks), maxKeys) <==> |OthersSince(ks, key)| < maxKeys
  {
    var order := Recency(ks);
    RecencyUnique(ks);
    var i := PositionByFollowing(order, key);
    FollowingIsOthersSince(ks, key);
    var rest := order[i + 1..];
    assert Unique(rest);
    UniqueCount(rest);
    var cut := if |order| > maxKeys then |order| - maxKeys else 0;
    assert Newest(order, maxKeys) == order[cut..];
    if i >= cut {
      assert order[cut..][i - cut] == key;
    }
  }

  // ----- Runs of lookups

  datatype Lookup<L> = Lookup(key: string, made: L, now: real)

  function KeysOf<L>(run: seq<Lookup<L>>): (ks: seq<string>)
    ensures |ks| == |run| && forall i :: 0 <= i < |run| ==> ks[i] == run[i].key
  {
    seq(|run|, i requires 0 <= i < |run| => run[i].key)
  }

  function TableAfter<L>(run: seq<Lookup<L>>, ttl: real, maxKeys: nat): seq<Entry<L>>
    decreases |run|
  {
    if run == [] then []
    else
      var n := |run| - 1;
      Touch(TableAfter(run[..n], ttl, maxKeys), run[n].key, run[n].made, run[n].now, ttl, maxKeys)
  }

  /** After every run of lookups, whatever expired by age on the way, the table lists exactly the
      `maxKeys` most recently used keys in the order of their last use. */
  lemma {:induction false} TableIsRecency<L>(run: seq<Lookup<L>>, ttl: real, maxKeys: nat)
    ensures Names(TableAfter(run, ttl, maxKeys)) == Newest(Recency(KeysOf(run)), maxKeys)
    decreases |run|
  {
    if run != [] {
      var n := |run| - 1;
      var ks := KeysOf(run);
      TableIsRecency(run[..n], ttl, maxKeys);
      assert ks[..n] == KeysOf(run[..n]);
      RecencyUnique(ks[..n]);
      TouchKeepsNewest(TableAfter(run[..n], ttl, maxKeys), Recency(ks[..n]), run[n].key, run[n].made, run[n].now, ttl, maxKeys);
    }
  }

  /** The bound on the table and the exact rule of eviction, on every run. */
  lemma {:induction false} EvictionRule<L>(run: seq<Lookup<L>>, key: string, ttl: real, maxKeys: nat)
    ensures var t := TableAfter(run, ttl, maxKeys);
            && |t| <= maxKeys && Unique(Names(t))
            && Names(t) == Newest(Recency(KeysOf(run)), maxKeys)
            && (key in KeysOf(run) ==> (Find(t, key).None? <==> |OthersSince(KeysOf(run), key)| >= maxKeys))
  {
    TableIsRecency(run, ttl, maxKeys);
    RecencyUnique(KeysOf(run));
    if key in KeysOf(run) {
      KeptIff(KeysOf(run), key, maxKeys);
    }
  }
}
