/** What `eachr` promises about the calls it makes: the order of the
    entries, the early exit on `false` and nothing else, and what each of
    the three traversals reaches. */
module EachrProperties {
  import opened JsValues
  import opened Eachr

  /** The walk calls the callback on a prefix of the entries, in order;
      every call but the last returned something other than `false`; and it
      ends before the last entry only right after a call that returned
      `false`. */
  lemma {:induction false} WalkVisitsPrefixUntilFalse<S, K, V>(callback: Callback<S, K, V>, init: S, subject: Subject<K, V>, es: seq<Entry<K, V>>)
    ensures var calls := Walk(callback, init, subject, es).calls;
            && |calls| <= |es|
            && (forall i :: 0 <= i < |calls| ==> calls[i].entry == es[i])
            && (forall i :: 0 <= i < |calls| - 1 ==> !IsStrictFalse(calls[i].reply))
            && (|calls| < |es| ==> Halted(calls))
    decreases |es|
  {
    if es != [] {
      var front := es[..|es| - 1];
      WalkVisitsPrefixUntilFalse(callback, init, subject, front);
    }
  }

  /** The walk is the uninterrupted traversal of the entries it reached. */
  lemma {:induction false} WalkIsWalkAllOfVisited<S, K, V>(callback: Callback<S, K, V>, init: S, subject: Subject<K, V>, es: seq<Entry<K, V>>)
    ensures var w := Walk(callback, init, subject, es);
            w == WalkAll(callback, init, subject, es[..|w.calls|])
    decreases |es|
  {
    if es != [] {
      var front := es[..|es| - 1];
      var w' := Walk(callback, init, subject, front);
      WalkIsWalkAllOfVisited(callback, init, subject, front);
      if Halted(w'.calls) {
        assert es[..|w'.calls|] == front[..|w'.calls|];
      } else {
        WalkVisitsPrefixUntilFalse(callback, init, subject, front);
        assert front[..|front|] == front;
        assert es[..|es|] == es;
      }
    }
  }

  /** Running the uninterrupted traversal on fewer entries makes a prefix of
      its calls. */
  lemma {:induction false} WalkAllPrefix<S, K, V>(callback: Callback<S, K, V>, init: S, subject: Subject<K, V>, es: seq<Entry<K, V>>, j: nat)
    requires j <= |es|
    ensures WalkAll(callback, init, subject, es[..j]).calls == WalkAll(callback, init, subject, es).calls[..j]
    decreases |es|
  {
    if j < |es| {
      var front := es[..|es| - 1];
      assert front[..j] == es[..j];
      WalkAllPrefix(callback, init, subject, front, j);
    } else {
      assert es[..j] == es;
    }
  }

  /** The early exit cuts the uninterrupted traversal right after its first
      `false`: the walk makes exactly the first n calls the uninterrupted
      traversal makes and leaves the callback in the state those n calls
      leave it in, where n counts the calls up to and including the first
      one that returned `false`, or is the number of entries when none
      did. */
  lemma WalkIsFullTraversalCutAtFirstFalse<S, K, V>(callback: Callback<S, K, V>, init: S, subject: Subject<K, V>, es: seq<Entry<K, V>>)
    ensures var w := Walk(callback, init, subject, es);
            var full := WalkAll(callback, init, subject, es).calls;
            var n := |w.calls|;
            && w == WalkAll(callback, init, subject, es[..n])
            && w.calls == full[..n]
            && (forall i :: 0 <= i < n - 1 ==> !IsStrictFalse(full[i].reply))
            && (n < |es| ==> 0 < n && IsStrictFalse(full[n - 1].reply))
  {
    var w := Walk(callback, init, subject, es);
    WalkVisitsPrefixUntilFalse(callback, init, subject, es);
    WalkIsWalkAllOfVisited(callback, init, subject, es);
    WalkAllPrefix(callback, init, subject, es, |w.calls|);
  }

  /** Returning anything but `false` keeps the iteration going: if no call
      the walk makes returns `false` -- whatever else it returns, undefined,
      null, 0 or "" included -- the callback is called on every entry, and
      the walk is the uninterrupted traversal. */
  lemma NoFalseReplyVisitsAll<S, K, V>(callback: Callback<S, K, V>, init: S, subject: Subject<K, V>, es: seq<Entry<K, V>>)
    requires var calls := Walk(callback, init, subject, es).calls;
             forall i :: 0 <= i < |calls| ==> !IsStrictFalse(calls[i].reply)
    ensures Walk(callback, init, subject, es) == WalkAll(callback, init, subject, es)
    ensures |Walk(callback, init, subject, es).calls| == |es|
  {
    WalkVisitsPrefixUntilFalse(callback, init, subject, es);
    WalkIsWalkAllOfVisited(callback, init, subject, es);
    assert es[..|es|] == es;
  }

  /** A callback that returns `false` for no input at all is called on every
      entry. */
  lemma {:induction false} NeverFalseCallbackVisitsAll<S, K, V>(callback: Callback<S, K, V>, init: S, subject: Subject<K, V>, es: seq<Entry<K, V>>)
    requires forall s, v, k :: !IsStrictFalse(callback(s, v, k, subject).1)
    ensures Walk(callback, init, subject, es) == WalkAll(callback, init, subject, es)
    ensures |Walk(callback, init, subject, es).calls| == |es|
    decreases |es|
  {
    if es != [] {
      var front := es[..|es| - 1];
      NeverFalseCallbackVisitsAll(callback, init, subject, front);
      if front != [] {
        var before := WalkAll(callback, init, subject, front[..|front| - 1]);
        var e := front[|front| - 1];
        assert WalkAll(callback, init, subject, front) == Step(callback, subject, before, e);
        assert !IsStrictFalse(callback(before.state, e.value, e.key, subject).1);
      }
    }
  }

  /** Breaking on the k-th call ends the walk there: exactly k + 1 calls
      were made, on the first k + 1 entries, and no later entry is
      reached. */
  lemma StopOnCall<S, K, V>(callback: Callback<S, K, V>, init: S, subject: Subject<K, V>, es: seq<Entry<K, V>>, k: nat)
    requires k < |Walk(callback, init, subject, es).calls|
    requires IsStrictFalse(Walk(callback, init, subject, es).calls[k].reply)
    ensures |Walk(callback, init, subject, es).calls| == k + 1
    ensures forall i :: 0 <= i <= k ==> Walk(callback, init, subject, es).calls[i].entry == es[i]
  {
    WalkVisitsPrefixUntilFalse(callback, init, subject, es);
  }

  /** An array on which no call returns `false` gets one call per element,
      with the keys 0 .. n-1 in ascending order and the element at that
      index as the value. */
  lemma ArrayVisitsEveryIndex<S, K, V>(callback: Callback<S, K, V>, init: S, items: seq<V>)
    requires var calls := Walk(callback, init, Arr(items), Entries(Arr(items))).calls;
             forall i :: 0 <= i < |calls| ==> !IsStrictFalse(calls[i].reply)
    ensures var calls := Walk(callback, init, Arr(items), Entries(Arr(items))).calls;
            && |calls| == |items|
            && forall i :: 0 <= i < |items| ==> calls[i].entry == Entry(Index(i), items[i])
  {
    NoFalseReplyVisitsAll(callback, init, Arr(items), Entries(Arr(items)));
  }

  /** The own-property filter: the entries reached are exactly the
      enumerated keys that are own properties, each with its own value. An
      inherited key (enumerated, but not an own property) is never
      reached. */
  lemma {:induction false} ObjectEntriesAreOwn<K, V>(keys: seq<string>, own: map<string, V>)
    ensures var r := ObjectEntries<K, V>(keys, own);
            forall e :: e in r ==>
              e.key.Name? && e.key.name in keys && e.key.name in own && e.value == own[e.key.name]
    ensures var r := ObjectEntries<K, V>(keys, own);
            forall k :: k in keys && k in own ==> Entry(Name(k), own[k]) in r
    decreases |keys|
  {
    if keys != [] {
      var front := keys[..|keys| - 1];
      ObjectEntriesAreOwn<K, V>(front, own);
      assert keys == front + [keys[|keys| - 1]];
    }
  }

  /** Enumerating distinct keys reaches each own property at most once. */
  lemma {:induction false} ObjectEntriesDistinct<K, V>(keys: seq<string>, own: map<string, V>)
    requires Distinct(keys)
    ensures var r := ObjectEntries<K, V>(keys, own);
            forall i, j :: 0 <= i < j < |r| ==> r[i].key != r[j].key
    decreases |keys|
  {
    if keys != [] {
      var front := keys[..|keys| - 1];
      var k := keys[|keys| - 1];
      ObjectEntriesDistinct<K, V>(front, own);
      ObjectEntriesAreOwn<K, V>(front, own);
      var r' := ObjectEntries<K, V>(front, own);
      var r := ObjectEntries<K, V>(keys, own);
      assert r == r' + (if k in own then [Entry(Name(k), own[k])] else []);
      forall i | 0 <= i < |r'| ensures r'[i].key != Name(k) {
        assert r'[i] in r';
        var j :| 0 <= j < |front| && front[j] == r'[i].key.name;
        assert keys[j] == front[j];
      }
      forall i, j | 0 <= i < j < |r| ensures r[i].key != r[j].key {
        if j < |r'| {
          assert r[i] == r'[i] && r[j] == r'[j];
        } else {
          assert r[i] == r'[i] && r[j].key == Name(k);
        }
      }
    }
  }

  /** On a plain object only own properties are visited, each with its own
      value; an inherited key is never visited. */
  lemma ObjectVisitsOnlyOwnKeys<S, K, V>(callback: Callback<S, K, V>, init: S, keys: seq<string>, own: map<string, V>)
    ensures var calls := Walk(callback, init, PlainObject(keys, own), Entries(PlainObject(keys, own))).calls;
            forall c :: c in calls ==>
              c.entry.key.Name? && c.entry.key.name in keys && c.entry.key.name in own && c.entry.value == own[c.entry.key.name]
  {
    var subject := PlainObject(keys, own);
    var es := Entries(subject);
    var calls := Walk(callback, init, subject, es).calls;
    WalkVisitsPrefixUntilFalse(callback, init, subject, es);
    ObjectEntriesAreOwn<K, V>(keys, own);
    forall c | c in calls
      ensures c.entry.key.Name? && c.entry.key.name in keys && c.entry.key.name in own && c.entry.value == own[c.entry.key.name]
    {
      var i :| 0 <= i < |calls| && calls[i] == c;
      assert es[i] in es;
    }
  }

  /** When the enumeration repeats no key (as `for...in` does not), no
      property of a plain object is visited twice. */
  lemma ObjectVisitsEachKeyOnce<S, K, V>(callback: Callback<S, K, V>, init: S, keys: seq<string>, own: map<string, V>)
    requires Distinct(keys)
    ensures var calls := Walk(callback, init, PlainObject(keys, own), Entries(PlainObject(keys, own))).calls;
            forall i, j :: 0 <= i < j < |calls| ==> calls[i].entry.key != calls[j].entry.key
  {
    var subject := PlainObject(keys, own);
    var es := Entries(subject);
    var calls := Walk(callback, init, subject, es).calls;
    WalkVisitsPrefixUntilFalse(callback, init, subject, es);
    ObjectEntriesDistinct<K, V>(keys, own);
    assert es == ObjectEntries<K, V>(keys, own);
    forall i, j | 0 <= i < j < |calls| ensures calls[i].entry.key != calls[j].entry.key {
      assert calls[i].entry == es[i] && calls[j].entry == es[j];
    }
  }

  /** When no call returns `false`, every own enumerable property of a
      plain object is visited, with its own value. */
  lemma ObjectVisitsEveryOwnKey<S, K, V>(callback: Callback<S, K, V>, init: S, keys: seq<string>, own: map<string, V>)
    requires var calls := Walk(callback, init, PlainObject(keys, own), Entries(PlainObject(keys, own))).calls;
             forall i :: 0 <= i < |calls| ==> !IsStrictFalse(calls[i].reply)
    ensures var calls := Walk(callback, init, PlainObject(keys, own), Entries(PlainObject(keys, own))).calls;
            forall k :: k in keys && k in own ==> exists c :: c in calls && c.entry == Entry(Name(k), own[k])
  {
    var subject := PlainObject(keys, own);
    var es := Entries(subject);
    var calls := Walk(callback, init, subject, es).calls;
    NoFalseReplyVisitsAll(callback, init, subject, es);
    ObjectEntriesAreOwn<K, V>(keys, own);
    forall k | k in keys && k in own ensures exists c :: c in calls && c.entry == Entry(Name(k), own[k]) {
      var i :| 0 <= i < |es| && es[i] == Entry(Name(k), own[k]);
      assert calls[i] in calls;
    }
  }

  /** A Map is visited in its entry order, each call receiving that entry's
      own key and value; when no call returns `false`, the callback is
      called once per entry. */
  lemma MapVisitsEntriesInOrder<S, K, V>(callback: Callback<S, K, V>, init: S, entries: seq<(K, V)>)
    ensures var calls := Walk(callback, init, JsMap(entries), Entries(JsMap(entries))).calls;
            forall i :: 0 <= i < |calls| ==> calls[i].entry == Entry(MapKey(entries[i].0), entries[i].1)
    ensures var calls := Walk(callback, init, JsMap(entries), Entries(JsMap(entries))).calls;
            (forall i :: 0 <= i < |calls| ==> !IsStrictFalse(calls[i].reply)) ==> |calls| == |entries|
  {
    var calls := Walk(callback, init, JsMap(entries), Entries(JsMap(entries))).calls;
    WalkVisitsPrefixUntilFalse(callback, init, JsMap(entries), Entries(JsMap(entries)));
    if forall i :: 0 <= i < |calls| ==> !IsStrictFalse(calls[i].reply) {
      NoFalseReplyVisitsAll(callback, init, JsMap(entries), Entries(JsMap(entries)));
    }
  }
}
