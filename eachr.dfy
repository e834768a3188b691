/** `eachr(subject, callback)`: walk an array, a plain object or a Map,
    calling `callback(value, key, subject)` for each entry, stop the first
    time the callback returns exactly `false`, and hand back the subject. */
module Eachr {
  import opened JsValues

  /** What `eachr` can be given. The three shapes it iterates are told apart
      by their tag (the library's isArray / isPlainObject / isMap tests);
      anything else -- a primitive, null, a non-plain object such as a Set --
      is `Unsupported`.
      A plain object is given by the key sequence a `for...in` loop
      enumerates (own enumerable keys and inherited enumerable keys, in the
      engine's order) and by its own properties. */
  datatype Subject<K, V> =
    | Arr(items: seq<V>)
    | PlainObject(forInKeys: seq<string>, own: map<string, V>)
    | JsMap(entries: seq<(K, V)>)
    | Unsupported

  /** The key handed to the callback: an array index, a property name or a
      Map key. */
  datatype Key<K> = Index(i: nat) | Name(name: string) | MapKey(k: K)

  datatype Entry<K, V> = Entry(key: Key<K>, value: V)

  /** One invocation of the callback: the entry it received and what it
      returned. */
  datatype Call<K, V> = Call(entry: Entry<K, V>, reply: JsValue)

  /** The calls made so far and the callback's own state after them. */
  datatype Run<S, K, V> = Run(calls: seq<Call<K, V>>, state: S)

  /** What a call of `eachr` ends in: it returns its subject, or it throws. */
  datatype Outcome<K, V> = Returned(subject: Subject<K, V>) | Threw(message: string)

  /** The callback. Its side effects (logging, collecting) are the state S it
      threads from call to call; the subject is passed explicitly where the
      source also binds it as `this`. */
  type Callback<!S, !K, !V> = (S, V, Key<K>, Subject<K, V>) -> (S, JsValue)

  const UnsupportedMessage := "eachr does not know how to iterate what was passed to it"

  predicate Distinct(s: seq<string>) {
    forall i, j :: 0 <= i < j < |s| ==> s[i] != s[j]
  }

  /** The entries of an array, by ascending index. */
  function ArrayEntries<K, V>(items: seq<V>): seq<Entry<K, V>> {
    seq(|items|, i requires 0 <= i < |items| => Entry(Index(i), items[i]))
  }

  /** The entries a `for...in` loop filtered by `hasOwnProperty` reaches, in
      enumeration order: exactly the enumerated keys that are own properties,
      each with its own value; inherited keys are skipped (see
      EachrProperties.ObjectEntriesAreOwn). */
  function ObjectEntries<K, V>(keys: seq<string>, own: map<string, V>): (r: seq<Entry<K, V>>)
    ensures |r| <= |keys|
    ensures forall e :: e in r ==> e.key.Name?
  {
    if keys == [] then []
    else
      var k := keys[|keys| - 1];
      ObjectEntries(keys[..|keys| - 1], own) + (if k in own then [Entry(Name(k), own[k])] else [])
  }

  /** The entries of a Map, in the Map's entry order. */
  function MapEntries<K, V>(entries: seq<(K, V)>): seq<Entry<K, V>> {
    seq(|entries|, i requires 0 <= i < |entries| => Entry(MapKey(entries[i].0), entries[i].1))
  }

  /** The full traversal order of a subject. Each shape has its own kind of
      key, so the keys tell which of the three traversals produced it. */
  function Entries<K, V>(subject: Subject<K, V>): (r: seq<Entry<K, V>>)
    ensures subject.Arr? ==> |r| == |subject.items| && forall e :: e in r ==> e.key.Index?
    ensures subject.PlainObject? ==> forall e :: e in r ==> e.key.Name?
    ensures subject.JsMap? ==> |r| == |subject.entries| && forall e :: e in r ==> e.key.MapKey?
    ensures subject.Unsupported? ==> r == []
  {
    match subject
    case Arr(items) => ArrayEntries(items)
    case PlainObject(keys, own) => ObjectEntries(keys, own)
    case JsMap(entries) => MapEntries(entries)
    case Unsupported => []
  }

  /** The last call returned `false`, so the iteration has been broken off. */
  predicate Halted<K, V>(calls: seq<Call<K, V>>) {
    |calls| > 0 && IsStrictFalse(calls[|calls| - 1].reply)
  }

  /** Call the callback once more, on entry `e`. */
  function Step<S, K, V>(callback: Callback<S, K, V>, subject: Subject<K, V>, r: Run<S, K, V>, e: Entry<K, V>): Run<S, K, V> {
    var answer := callback(r.state, e.value, e.key, subject);
    Run(r.calls + [Call(e, answer.1)], answer.0)
  }

  /** What iterating `es` with the early exit does: the callback is called
      on each entry in turn until one call returns `false`
      (EachrProperties.WalkVisitsPrefixUntilFalse says what that means for
      the calls made). */
  function Walk<S, K, V>(callback: Callback<S, K, V>, init: S, subject: Subject<K, V>, es: seq<Entry<K, V>>): (r: Run<S, K, V>)
    ensures |r.calls| <= |es|
    decreases |es|
  {
    if es == [] then Run([], init)
    else
      var r := Walk(callback, init, subject, es[..|es| - 1]);
      if Halted(r.calls) then r else Step(callback, subject, r, es[|es| - 1])
  }

  /** Reference traversal without the early exit: the callback is called on
      every entry of `es`, whatever it returns. */
  function WalkAll<S, K, V>(callback: Callback<S, K, V>, init: S, subject: Subject<K, V>, es: seq<Entry<K, V>>): (r: Run<S, K, V>)
    ensures |r.calls| == |es|
    ensures forall i :: 0 <= i < |es| ==> r.calls[i].entry == es[i]
    decreases |es|
  {
    if es == [] then Run([], init)
    else Step(callback, subject, WalkAll(callback, init, subject, es[..|es| - 1]), es[|es| - 1])
  }

  /** `eachr(subject, callback)` with the callback's state starting at
      `init`: exactly one of the three traversals runs, chosen by testing for
      an array, then a plain object, then a Map; anything else throws before
      the callback is ever called. Returns what `eachr` ends in -- the very
      subject it was given -- and the callback's final state; `calls` records
      every invocation of the callback. */
  method Each<S, K, V>(subject: Subject<K, V>, callback: Callback<S, K, V>, init: S)
    returns (outcome: Outcome<K, V>, state: S, ghost calls: seq<Call<K, V>>)
    ensures subject.Unsupported? ==> outcome == Threw(UnsupportedMessage) && calls == [] && state == init
    ensures !subject.Unsupported? ==> outcome == Returned(subject)
    ensures !subject.Unsupported? ==> state == Walk(callback, init, subject, Entries(subject)).state
    ensures !subject.Unsupported? ==> calls == Walk(callback, init, subject, Entries(subject)).calls
  {
    if subject.Arr? {
      state, calls := EachIndex(subject, callback, init);
    } else if subject.PlainObject? {
      state, calls := EachOwnKey(subject, callback, init);
    } else if subject.JsMap? {
      state, calls := EachMapEntry(subject, callback, init);
    } else {
      return Threw(UnsupportedMessage), init, [];
    }
    outcome := Returned(subject);
  }

  /** The array traversal: a counter loop over the indices 0 .. length-1,
      left by `break` when the callback returns `false`. */
  method EachIndex<S, K, V>(subject: Subject<K, V>, callback: Callback<S, K, V>, init: S)
    returns (state: S, ghost calls: seq<Call<K, V>>)
    requires subject.Arr?
    ensures state == Walk(callback, init, subject, Entries(subject)).state
    ensures calls == Walk(callback, init, subject, Entries(subject)).calls
  {
    state, calls := init, [];
    ghost var es := Entries(subject);
    var items := subject.items;
    var key := 0;
    while key < |items|
      invariant key <= |items|
      invariant Run(calls, state) == Walk(callback, init, subject, es[..key])
      invariant !Halted(calls)
    {
      var value := items[key];
      var answer := callback(state, value, Index(key), subject);
      assert es[..key + 1] == es[..key] + [es[key]];
      WalkSnoc(callback, init, subject, es[..key], es[key]);
      state, calls := answer.0, calls + [Call(Entry(Index(key), value), answer.1)];
      if IsStrictFalse(answer.1) {
        WalkHaltedStable(callback, init, subject, es, key + 1);
        break;
      }
      key := key + 1;
    }
    assert es[..|es|] == es;
  }

  /** The plain-object traversal: a `for...in` loop over the enumerated keys
      that skips every key that is not an own property, left by `break` when
      the callback returns `false`. The own-property test is the one
      `Object.prototype.hasOwnProperty` makes. */
  method EachOwnKey<S, K, V>(subject: Subject<K, V>, callback: Callback<S, K, V>, init: S)
    returns (state: S, ghost calls: seq<Call<K, V>>)
    requires subject.PlainObject?
    ensures state == Walk(callback, init, subject, Entries(subject)).state
    ensures calls == Walk(callback, init, subject, Entries(subject)).calls
  {
    state, calls := init, [];
    var keys, own := subject.forInKeys, subject.own;
    ghost var es: seq<Entry<K, V>> := ObjectEntries(keys, own);
    ghost var done: seq<Entry<K, V>> := [];
    var i := 0;
    while i < |keys|
      invariant i <= |keys|
      invariant done == ObjectEntries(keys[..i], own)
      invariant Run(calls, state) == Walk(callback, init, subject, done)
      invariant !Halted(calls)
    {
      var key := keys[i];
      if key in own {
        var value := own[key];
        var answer := callback(state, value, Name(key), subject);
        ghost var e := Entry(Name(key), value);
        assert ObjectEntries(keys[..i + 1], own) == done + [e] by {
          ObjectEntriesSnoc<K, V>(keys, own, i);
        }
        assert Walk(callback, init, subject, done + [e]) == Step(callback, subject, Walk(callback, init, subject, done), e) by {
          WalkSnoc(callback, init, subject, done, e);
        }
        state, calls, done := answer.0, calls + [Call(e, answer.1)], done + [e];
        if IsStrictFalse(answer.1) {
          assert Walk(callback, init, subject, es) == Walk(callback, init, subject, done) by {
            ObjectEntriesPrefix<K, V>(keys, own, i + 1);
            WalkHaltedStable(callback, init, subject, es, |done|);
          }
          break;
        }
      } else {
        assert ObjectEntries<K, V>(keys[..i + 1], own) == done by {
          ObjectEntriesSnoc<K, V>(keys, own, i);
        }
      }
      i := i + 1;
    }
    assert keys[..|keys|] == keys;
  }

  /** The Map traversal: a loop that pulls one `[key, value]` entry at a time
      from the Map's entry iterator (a cursor into its entry sequence here),
      left by `break` when the callback returns `false`. */
  method EachMapEntry<S, K, V>(subject: Subject<K, V>, callback: Callback<S, K, V>, init: S)
    returns (state: S, ghost calls: seq<Call<K, V>>)
    requires subject.JsMap?
    ensures state == Walk(callback, init, subject, Entries(subject)).state
    ensures calls == Walk(callback, init, subject, Entries(subject)).calls
  {
    state, calls := init, [];
    ghost var es := Entries(subject);
    var entries := subject.entries;
    var i := 0;
    while i < |entries|
      invariant i <= |entries|
      invariant Run(calls, state) == Walk(callback, init, subject, es[..i])
      invariant !Halted(calls)
    {
      var (key, value) := entries[i];
      var answer := callback(state, value, MapKey(key), subject);
      assert es[..i + 1] == es[..i] + [es[i]];
      WalkSnoc(callback, init, subject, es[..i], es[i]);
      state, calls := answer.0, calls + [Call(Entry(MapKey(key), value), answer.1)];
      if IsStrictFalse(answer.1) {
        WalkHaltedStable(callback, init, subject, es, i + 1);
        break;
      }
      i := i + 1;
    }
    assert es[..|es|] == es;
  }

  /** While no call has returned `false`, one more entry means one more
      call of the callback. */
  lemma WalkSnoc<S, K, V>(callback: Callback<S, K, V>, init: S, subject: Subject<K, V>, es: seq<Entry<K, V>>, e: Entry<K, V>)
    requires !Halted(Walk(callback, init, subject, es).calls)
    ensures Walk(callback, init, subject, es + [e]) == Step(callback, subject, Walk(callback, init, subject, es), e)
  {
    assert (es + [e])[..|es|] == es;
  }

  /** Once a walk has been broken off, the remaining entries change nothing. */
  lemma {:induction false} WalkHaltedStable<S, K, V>(callback: Callback<S, K, V>, init: S, subject: Subject<K, V>, es: seq<Entry<K, V>>, m: nat)
    requires m <= |es|
    requires Halted(Walk(callback, init, subject, es[..m]).calls)
    ensures Walk(callback, init, subject, es) == Walk(callback, init, subject, es[..m])
    decreases |es|
  {
    if m < |es| {
      var front := es[..|es| - 1];
      assert front[..m] == es[..m];
      WalkHaltedStable(callback, init, subject, front, m);
    } else {
      assert es[..m] == es;
    }
  }

  /** Enumerating two key lists one after the other reaches the entries of
      each, in order. */
  lemma {:induction false} ObjectEntriesAppend<K, V>(a: seq<string>, b: seq<string>, own: map<string, V>)
    ensures ObjectEntries<K, V>(a + b, own) == ObjectEntries<K, V>(a, own) + ObjectEntries<K, V>(b, own)
    decreases |b|
  {
    if b == [] {
      assert a + b == a;
    } else {
      var b' := b[..|b| - 1];
      assert (a + b)[..|a + b| - 1] == a + b';
      ObjectEntriesAppend<K, V>(a, b', own);
    }
  }

  /** Enumerating one more key adds its entry exactly when it is an own
      property. */
  lemma ObjectEntriesSnoc<K, V>(keys: seq<string>, own: map<string, V>, i: nat)
    requires i < |keys|
    ensures ObjectEntries<K, V>(keys[..i + 1], own) ==
      ObjectEntries<K, V>(keys[..i], own) + (if keys[i] in own then [Entry(Name(keys[i]), own[keys[i]])] else [])
  {
    assert keys[..i + 1][..i] == keys[..i];
  }

  /** The entries reached by the first j enumerated keys come first. */
  lemma ObjectEntriesPrefix<K, V>(keys: seq<string>, own: map<string, V>, j: nat)
    requires j <= |keys|
    ensures var done := ObjectEntries<K, V>(keys[..j], own);
            |done| <= |ObjectEntries<K, V>(keys, own)| && ObjectEntries<K, V>(keys, own)[..|done|] == done
  {
    ObjectEntriesAppend<K, V>(keys[..j], keys[j..], own);
    assert keys[..j] + keys[j..] == keys;
  }
}
