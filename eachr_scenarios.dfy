/** Worked cases of `eachr`: the documented array example that breaks out
    on 'break', and an object and a Map whose entries are collected. */
module EachrScenarios {
  import opened JsValues
  import opened Eachr
  import opened EachrProperties

  const Words: seq<string> := ["hello", "world", "break", "never"]

  /** The documented callback: `value === 'break' ? false : console.log(value)`.
      The log it writes to is its state; console.log returns undefined. */
  function LogUntilBreak(log: seq<string>, value: string, key: Key<string>, subject: Subject<string, string>): (seq<string>, JsValue) {
    if value == "break" then (log, Bool(false)) else (log + [value], Undefined)
  }

  /** A callback that collects every (key, value) pair it is given and
      returns nothing, i.e. undefined. */
  function Collect(seen: seq<(Key<JsValue>, JsValue)>, value: JsValue, key: Key<JsValue>, subject: Subject<JsValue, JsValue>): (seq<(Key<JsValue>, JsValue)>, JsValue) {
    (seen + [(key, value)], Undefined)
  }

  /** Iterating ['hello', 'world', 'break', 'never'] with the documented
      callback logs 'hello' and 'world' only: the callback runs on indices
      0, 1 and 2, returns false on 'break', and 'never' is not reached. */
  lemma DocumentedExample()
    ensures var r := Walk(LogUntilBreak, [], Arr(Words), Entries(Arr(Words)));
            && r.state == ["hello", "world"]
            && |r.calls| == 3
            && r.calls[0].entry == Entry(Index(0), "hello")
            && r.calls[1].entry == Entry(Index(1), "world")
            && r.calls[2].entry == Entry(Index(2), "break")
            && r.calls[2].reply == Bool(false)
  {
    var subject: Subject<string, string> := Arr(Words);
    var es := Entries(subject);
    assert es[..0] == [];
    assert es[..1] == es[..0] + [es[0]];
    WalkSnoc(LogUntilBreak, [], subject, es[..0], es[0]);
    assert es[..2] == es[..1] + [es[1]];
    WalkSnoc(LogUntilBreak, [], subject, es[..1], es[1]);
    assert es[..3] == es[..2] + [es[2]];
    WalkSnoc(LogUntilBreak, [], subject, es[..2], es[2]);
    WalkHaltedStable(LogUntilBreak, [], subject, es, 3);
  }

  /** Iterating `{a: 1, b: 'two'}` whose prototype adds an enumerable `c`
      collects exactly ('a', 1) and ('b', 'two'): the inherited key is
      skipped. */
  lemma ObjectExample()
    ensures var subject := PlainObject(["a", "b", "c"], map["a" := Number(1.0), "b" := Str("two")]);
            Walk(Collect, [], subject, Entries(subject)).state == [(Name("a"), Number(1.0)), (Name("b"), Str("two"))]
  {
    var own := map["a" := Number(1.0), "b" := Str("two")];
    var keys := ["a", "b", "c"];
    var subject := PlainObject(keys, own);
    var es := Entries(subject);
    var a, b := Entry(Name("a"), Number(1.0)), Entry(Name("b"), Str("two"));
    assert es == [a, b] by {
      assert keys[..0] == [];
      ObjectEntriesSnoc<JsValue, JsValue>(keys, own, 0);
      assert ObjectEntries<JsValue, JsValue>(keys[..1], own) == [a];
      ObjectEntriesSnoc<JsValue, JsValue>(keys, own, 1);
      assert ObjectEntries<JsValue, JsValue>(keys[..2], own) == [a, b];
      ObjectEntriesSnoc<JsValue, JsValue>(keys, own, 2);
      assert keys[..3] == keys;
    }
    NeverFalseCallbackVisitsAll(Collect, [], subject, es);
    assert es[..1] == [a];
  }

  /** Iterating a Map built by `.set('a', 1).set('b', 'two')` collects
      ('a', 1) then ('b', 'two'), in insertion order. */
  lemma MapExample()
    ensures var subject := JsMap([(Str("a"), Number(1.0)), (Str("b"), Str("two"))]);
            Walk(Collect, [], subject, Entries(subject)).state == [(MapKey(Str("a")), Number(1.0)), (MapKey(Str("b")), Str("two"))]
  {
    var subject := JsMap([(Str("a"), Number(1.0)), (Str("b"), Str("two"))]);
    var es := Entries(subject);
    NeverFalseCallbackVisitsAll(Collect, [], subject, es);
    assert es[..1] == [es[0]];
  }
}
