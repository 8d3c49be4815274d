/** `assign(target, ...sources)` of lib/index.js and compiler.js: every
    key each source enumerates is written onto the target, source after
    source, so a key several sources share ends with the last one's value. */
module JsObjects {
  import opened Wrappers
  import opened Values

  /** An object whose properties `assign` overwrites in place. */
  class JsObject {
    var props: seq<(string, Value)>

    constructor (props0: seq<(string, Value)>)
      ensures props == props0
    {
      props := props0;
    }
  }

  /** `target[key] = value`: an existing property keeps its place and takes
      the new value; a new one is added last. */
  function Put(props: seq<(string, Value)>, key: string, value: Value): (r: seq<(string, Value)>)
    ensures Lookup(r, key) == Some(value)
    ensures forall k | k != key :: Lookup(r, k) == Lookup(props, k)
    ensures |props| <= |r| <= |props| + 1
    ensures forall i | 0 <= i < |props| :: r[i].0 == props[i].0
    ensures |r| == |props| + 1 ==> r[|props|] == (key, value)
    ensures |r| == |props| <==> Lookup(props, key).Some?
  {
    if props == [] then [(key, value)]
    else if props[0].0 == key then [(key, value)] + props[1..]
    else [props[0]] + Put(props[1..], key, value)
  }

  /** The writes of `for (var key in source) target[key] = source[key]`
      for the entries `es`, in order. */
  function CopyAll(props: seq<(string, Value)>, es: seq<(string, Value)>): seq<(string, Value)>
    decreases |es|
  {
    if es == [] then props
    else Put(CopyAll(props, es[..|es| - 1]), es[|es| - 1].0, es[|es| - 1].1)
  }

  /** The properties after `assign` copied every source, in order. */
  function AssignAll(props: seq<(string, Value)>, sources: seq<Value>): seq<(string, Value)>
    decreases |sources|
  {
    if sources == [] then props
    else CopyAll(AssignAll(props, sources[..|sources| - 1]), Entries(sources[|sources| - 1]))
  }

  /** The value of the last entry under `key`. */
  function LookupLast(es: seq<(string, Value)>, key: string): (r: Option<Value>)
    ensures r.None? <==> forall i | 0 <= i < |es| :: es[i].0 != key
    decreases |es|
  {
    if es == [] then None
    else if es[|es| - 1].0 == key then Some(es[|es| - 1].1)
    else LookupLast(es[..|es| - 1], key)
  }

  /** The value the last source that enumerates `key` has under it. */
  function LastSource(sources: seq<Value>, key: string): Option<Value>
    decreases |sources|
  {
    if sources == [] then None
    else
      match LookupLast(Entries(sources[|sources| - 1]), key)
      case Some(v) => Some(v)
      case None => LastSource(sources[..|sources| - 1], key)
  }

  /** After copying entries, a key holds the value of its last entry, or the
      value it had when no entry names it. */
  lemma {:induction false} CopyAllLookup(props: seq<(string, Value)>, es: seq<(string, Value)>, key: string)
    ensures Lookup(CopyAll(props, es), key) ==
      (if LookupLast(es, key).Some? then LookupLast(es, key) else Lookup(props, key))
    decreases |es|
  {
    if es != [] {
      CopyAllLookup(props, es[..|es| - 1], key);
    }
  }

  /** Later sources win: a key ends with the value of the last source that
      has it, and a key no source has keeps the target's value. */
  lemma {:induction false} AssignLaterWins(props: seq<(string, Value)>, sources: seq<Value>, key: string)
    ensures Lookup(AssignAll(props, sources), key) ==
      (if LastSource(sources, key).Some? then LastSource(sources, key) else Lookup(props, key))
    decreases |sources|
  {
    if sources != [] {
      var init := sources[..|sources| - 1];
      AssignLaterWins(props, init, key);
      CopyAllLookup(AssignAll(props, init), Entries(sources[|sources| - 1]), key);
    }
  }

  /** Copying never removes or reorders a property: the old keys keep their
      places and new ones follow. */
  lemma {:induction false} CopyAllKeepsKeys(props: seq<(string, Value)>, es: seq<(string, Value)>)
    ensures |props| <= |CopyAll(props, es)|
    ensures forall i | 0 <= i < |props| :: CopyAll(props, es)[i].0 == props[i].0
    decreases |es|
  {
    if es != [] {
      CopyAllKeepsKeys(props, es[..|es| - 1]);
    }
  }

  /** The target's own keys keep their places, whatever the sources hold. */
  lemma {:induction false} AssignKeepsKeys(props: seq<(string, Value)>, sources: seq<Value>)
    ensures |props| <= |AssignAll(props, sources)|
    ensures forall i | 0 <= i < |props| :: AssignAll(props, sources)[i].0 == props[i].0
    decreases |sources|
  {
    if sources != [] {
      var init := sources[..|sources| - 1];
      AssignKeepsKeys(props, init);
      CopyAllKeepsKeys(AssignAll(props, init), Entries(sources[|sources| - 1]));
    }
  }

  /** A target with distinct keys keeps them distinct. */
  lemma {:induction false} CopyAllDistinct(props: seq<(string, Value)>, es: seq<(string, Value)>)
    requires DistinctKeys(props)
    ensures DistinctKeys(CopyAll(props, es))
    decreases |es|
  {
    if es != [] {
      var p := CopyAll(props, es[..|es| - 1]);
      CopyAllDistinct(props, es[..|es| - 1]);
      PutDistinct(p, es[|es| - 1].0, es[|es| - 1].1);
    }
  }

  lemma PutDistinct(props: seq<(string, Value)>, key: string, value: Value)
    requires DistinctKeys(props)
    ensures DistinctKeys(Put(props, key, value))
  {
    var r := Put(props, key, value);
    if |r| == |props| + 1 {
      forall i, j | 0 <= i < j < |r|
        ensures r[i].0 != r[j].0
      {
        if j == |props| {
          assert Lookup(props, key).None?;
        }
      }
    }
  }

  /** `assign(target, ...sources)`: a null or undefined target is returned
      untouched without reading the sources; otherwise every key of every
      source is written onto it in order, and the target itself returned. */
  method Assign(target: JsObject?, sources: seq<Value>) returns (r: JsObject?)
    modifies target
    ensures r == target
    ensures target != null ==> target.props == AssignAll(old(target.props), sources)
  {
    if target != null {
      var i := 0;
      while i < |sources|
        invariant 0 <= i <= |sources|
        invariant target.props == AssignAll(old(target.props), sources[..i])
      {
        var es := Entries(sources[i]);
        var j := 0;
        assert sources[..i + 1][..i] == sources[..i];
        while j < |es|
          invariant 0 <= j <= |es|
          invariant target.props == CopyAll(AssignAll(old(target.props), sources[..i]), es[..j])
        {
          assert es[..j + 1][..j] == es[..j];
          target.props := Put(target.props, es[j].0, es[j].1);
          j := j + 1;
        }
        assert es[..j] == es;
        i := i + 1;
      }
      assert sources[..i] == sources;
    }
    r := target;
  }
}
