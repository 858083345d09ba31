/**
 * Replacing the image file names of an experiment's init file by the ids of the targets
 * they name (`filenames_to_ids`), at any depth of nested lists, tuples and dicts.
 */
module TargetIds {
  import opened Wrappers

  /** A target as the function reads it: its file name and its id. */
  datatype Target = Target(altDescription: string, targetId: string)

  /**
   * The nested value of file names. The function dispatches on the kind of its argument's
   * FIRST element, so a list node and a tuple node behave alike as arguments and differ
   * only as elements of an enclosing node.
   */
  datatype Files =
    | Names(names: seq<string>)               // a list of file names
    | List(items: seq<Files>)                 // a list of nested values
    | Tuple(items: seq<Files>)                // a tuple of nested values
    | Dict(entries: seq<(string, Files)>)     // a dict with string keys, in iteration order

  /** The value returned in place of `Files`. */
  datatype Ids =
    | IdList(ids: seq<string>)
    | ListOfIds(items: seq<Ids>)
    | TupleOfIds(items: seq<Ids>)
    | DictOfIds(entries: map<string, Ids>)

  /** The exceptions the function can raise. */
  datatype Error =
    | IndexError                       // `filenames[0]` of an empty list or tuple
    | KeyError                         // `filenames[0]` of a dict, whose keys are strings
    | AttributeError                   // `.items()` on a list or tuple
    | ValueError(missing: set<string>) // file names that name no target

  // ---------------------------------------------------------------------------------------
  // A dict comprehension over key/value pairs: a later pair overwrites an earlier one.

  /** `pairs[j]` is the last pair with its key. */
  ghost predicate IsLastKey<V>(pairs: seq<(string, V)>, j: int)
  {
    && 0 <= j < |pairs|
    && forall j' :: j < j' < |pairs| ==> pairs[j'].0 != pairs[j].0
  }

  /** `{k: v for (k, v) in pairs}`. */
  function LastWins<V>(pairs: seq<(string, V)>): (m: map<string, V>)
    ensures forall k :: k in m <==> exists i :: 0 <= i < |pairs| && pairs[i].0 == k
    ensures forall k :: k in m ==> exists j :: IsLastKey(pairs, j) && pairs[j].0 == k && pairs[j].1 == m[k]
  {
    if pairs == [] then map[]
    else
      var last := |pairs| - 1;
      var init := pairs[..last];
      var m := LastWins(init)[pairs[last].0 := pairs[last].1];
      assert IsLastKey(pairs, last);
      assert forall j :: IsLastKey(init, j) && init[j].0 != pairs[last].0 ==> IsLastKey(pairs, j);
      m
  }

  /** With distinct keys every pair survives. */
  lemma LastWinsDistinct<V>(pairs: seq<(string, V)>, i: int)
    requires forall a, b :: 0 <= a < b < |pairs| ==> pairs[a].0 != pairs[b].0
    requires 0 <= i < |pairs|
    ensures pairs[i].0 in LastWins(pairs) && LastWins(pairs)[pairs[i].0] == pairs[i].1
  {
    var m := LastWins(pairs);
    var j :| IsLastKey(pairs, j) && pairs[j].0 == pairs[i].0 && pairs[j].1 == m[pairs[i].0];
  }

  // ---------------------------------------------------------------------------------------
  // The base case: a list of file names.

  /** Some target carries the file name `name`. */
  ghost predicate Known(targets: seq<Target>, name: string)
  {
    exists j :: 0 <= j < |targets| && targets[j].altDescription == name
  }

  /** `targets[j]` is the last target carrying the file name `name`. */
  ghost predicate IsLastMatch(targets: seq<Target>, j: int, name: string)
  {
    && 0 <= j < |targets|
    && targets[j].altDescription == name
    && forall j' :: j < j' < |targets| ==> targets[j'].altDescription != name
  }

  /** `id` is the id of the last target carrying the file name `name`. */
  ghost predicate IsLastIdOf(targets: seq<Target>, name: string, id: string)
  {
    exists j :: IsLastMatch(targets, j, name) && targets[j].targetId == id
  }

  /** The table from file name to target id; a later target overwrites an earlier one. */
  function IdTable(targets: seq<Target>): (table: map<string, string>)
    ensures forall name :: name in table <==> Known(targets, name)
    ensures forall name :: name in table ==> IsLastIdOf(targets, name, table[name])
  {
    var pairs := seq(|targets|, i requires 0 <= i < |targets| => (targets[i].altDescription, targets[i].targetId));
    var table := LastWins(pairs);
    assert forall j :: 0 <= j < |targets| ==> pairs[j] == (targets[j].altDescription, targets[j].targetId);
    assert forall j :: IsLastKey(pairs, j) ==> IsLastMatch(targets, j, pairs[j].0);
    table
  }

  /**
   * The ids of a list of file names: a ValueError naming the file names no target carries,
   * or, position by position, the id of the last target carrying each name.
   */
  function FlatToIds(names: seq<string>, targets: seq<Target>): (r: Result<seq<string>, Error>)
    ensures r.Err? <==> exists i :: 0 <= i < |names| && !Known(targets, names[i])
    ensures r.Err? ==> r.error == ValueError(set n | n in names && !Known(targets, n))
    ensures r.Ok? ==> |r.value| == |names|
    ensures r.Ok? ==> forall i :: 0 <= i < |names| ==> IsLastIdOf(targets, names[i], r.value[i])
  {
    var table := IdTable(targets);
    var missing := (set n | n in names) - table.Keys;
    assert missing == set n | n in names && !Known(targets, n);
    assert missing != {} <==> exists i :: 0 <= i < |names| && names[i] in missing;
    if missing != {} then
      Err(ValueError(missing))
    else
      Ok(seq(|names|, i requires 0 <= i < |names| => table[names[i]]))
  }

  // ---------------------------------------------------------------------------------------
  // The recursion.

  /** A comprehension over converted elements: the first error raised, or all the values. */
  function Collect<T>(rs: seq<Result<T, Error>>): (r: Result<seq<T>, Error>)
    ensures r.Ok? <==> forall i :: 0 <= i < |rs| ==> rs[i].Ok?
    ensures r.Ok? ==> |r.value| == |rs| && forall i :: 0 <= i < |rs| ==> rs[i] == Ok(r.value[i])
    ensures r.Err? ==> exists i :: 0 <= i < |rs| && rs[i] == Err(r.error) && forall j :: 0 <= j < i ==> rs[j].Ok?
  {
    if rs == [] then Ok([])
    else match rs[0]
      case Err(e) => Err(e)
      case Ok(v) =>
        match Collect(rs[1..])
        case Err(e) => Err(e)
        case Ok(vs) => Ok([v] + vs)
  }

  /**
   * `out` is what converting `f` should give: the same nesting, with each file name
   * replaced by the id of the last target carrying it. A list or tuple argument gives a
   * tuple exactly when its first element is a tuple; a dict keeps its keys, each holding
   * the conversion of the last value stored under it.
   */
  ghost predicate Resolves(f: Files, targets: seq<Target>, out: Ids)
    decreases f
  {
    match f
    case Names(names) =>
      && out.IdList?
      && |out.ids| == |names|
      && forall i :: 0 <= i < |names| ==> IsLastIdOf(targets, names[i], out.ids[i])
    case Dict(entries) =>
      && out.DictOfIds?
      && (forall k :: k in out.entries <==> exists i :: 0 <= i < |entries| && entries[i].0 == k)
      && forall i :: IsLastKey(entries, i) ==> Resolves(entries[i].1, targets, out.entries[entries[i].0])
    case _ =>
      && |f.items| > 0
      && (out.ListOfIds? || out.TupleOfIds?)
      && (out.TupleOfIds? <==> f.items[0].Tuple?)
      && |out.items| == |f.items|
      && forall i :: 0 <= i < |f.items| ==> Resolves(f.items[i], targets, out.items[i])
  }

  /** The keys of `entries` paired with the converted values. */
  function Zip(entries: seq<(string, Files)>, vs: seq<Ids>): (pairs: seq<(string, Ids)>)
    requires |vs| == |entries|
    ensures |pairs| == |entries|
    ensures forall i :: 0 <= i < |entries| ==> pairs[i].0 == entries[i].0 && pairs[i].1 == vs[i]
  {
    seq(|entries|, i requires 0 <= i < |entries| => (entries[i].0, vs[i]))
  }

  /** A dict whose values are each converted correctly is converted correctly. */
  lemma DictOfResolves(entries: seq<(string, Files)>, targets: seq<Target>, vs: seq<Ids>)
    requires |vs| == |entries|
    requires forall i :: 0 <= i < |entries| ==> Resolves(entries[i].1, targets, vs[i])
    ensures Resolves(Dict(entries), targets, DictOfIds(LastWins(Zip(entries, vs))))
  {
    var pairs := Zip(entries, vs);
    var m := LastWins(pairs);
    forall i | IsLastKey(entries, i)
      ensures Resolves(entries[i].1, targets, m[entries[i].0])
    {
      var j :| IsLastKey(pairs, j) && pairs[j].0 == entries[i].0 && pairs[j].1 == m[entries[i].0];
      assert j == i by {
        assert IsLastKey(pairs, i);
      }
    }
  }

  /**
   * `filenames_to_ids` corrected: a dict argument is converted value by value before anything
   * is indexed; every other argument is handled as written. A converted value resolves every file name to the last target carrying it, and
   * a ValueError names only file names that no target carries.
   */
  function FilenamesToIds(f: Files, targets: seq<Target>): (r: Result<Ids, Error>)
    ensures r.Ok? ==> Resolves(f, targets, r.value)
    ensures r.Err? && r.error.ValueError? ==>
      r.error.missing != {} && forall n :: n in r.error.missing ==> !Known(targets, n)
    decreases f
  {
    match f
    case Names(names) =>
      if names == [] then Err(IndexError)
      else
        (match FlatToIds(names, targets)
         case Err(e) => Err(e)
         case Ok(ids) => Ok(IdList(ids)))
    case Dict(entries) =>
      var rs := seq(|entries|, i requires 0 <= i < |entries| => FilenamesToIds(entries[i].1, targets));
      (match Collect(rs)
       case Err(e) => Err(e)
       case Ok(vs) =>
         assert forall i :: 0 <= i < |entries| ==> rs[i] == Ok(vs[i]);
         DictOfResolves(entries, targets, vs);
         Ok(DictOfIds(LastWins(Zip(entries, vs)))))
    case _ =>
      var items := f.items;
      if items == [] then Err(IndexError)
      else if items[0].Dict? then Err(AttributeError)
      else
        var rs := seq(|items|, i requires 0 <= i < |items| => FilenamesToIds(items[i], targets));
        match Collect(rs)
        case Err(e) => Err(e)
        case Ok(vs) => Ok(if items[0].Tuple? then TupleOfIds(vs) else ListOfIds(vs))
  }

  /** Converting a list or a tuple converts its elements one by one, in order. */
  lemma SequenceConverts(items: seq<Files>, targets: seq<Target>)
    requires items != [] && !items[0].Dict?
    ensures FilenamesToIds(List(items), targets) == FilenamesToIds(Tuple(items), targets)
    ensures var r := FilenamesToIds(List(items), targets);
      && (r.Ok? <==> forall i :: 0 <= i < |items| ==> FilenamesToIds(items[i], targets).Ok?)
      && (r.Ok? ==>
            && (if items[0].Tuple? then r.value.TupleOfIds? else r.value.ListOfIds?)
            && |r.value.items| == |items|
            && forall i :: 0 <= i < |items| ==> FilenamesToIds(items[i], targets) == Ok(r.value.items[i]))
      && (r.Err? ==> exists i :: 0 <= i < |items| && FilenamesToIds(items[i], targets) == Err(r.error))
  {
    var rs := seq(|items|, i requires 0 <= i < |items| => FilenamesToIds(items[i], targets));
    assert forall i :: 0 <= i < |items| ==> rs[i] == FilenamesToIds(items[i], targets);
  }

  /** Converting a dict keeps its keys and converts the value under each of them. */
  lemma DictConverts(entries: seq<(string, Files)>, targets: seq<Target>)
    requires forall a, b :: 0 <= a < b < |entries| ==> entries[a].0 != entries[b].0
    ensures var r := FilenamesToIds(Dict(entries), targets);
      && (r.Ok? <==> forall i :: 0 <= i < |entries| ==> FilenamesToIds(entries[i].1, targets).Ok?)
      && (r.Ok? ==>
            && r.value.DictOfIds?
            && (forall k :: k in r.value.entries <==> exists i :: 0 <= i < |entries| && entries[i].0 == k)
            && forall i :: 0 <= i < |entries| ==>
                 FilenamesToIds(entries[i].1, targets) == Ok(r.value.entries[entries[i].0]))
      && (r.Err? ==> exists i :: 0 <= i < |entries| && FilenamesToIds(entries[i].1, targets) == Err(r.error))
  {
    var r := FilenamesToIds(Dict(entries), targets);
    var rs := seq(|entries|, i requires 0 <= i < |entries| => FilenamesToIds(entries[i].1, targets));
    assert forall i :: 0 <= i < |entries| ==> rs[i] == FilenamesToIds(entries[i].1, targets);
    if r.Ok? {
      var vs := Collect(rs).value;
      var pairs := Zip(entries, vs);
      assert r.value.entries == LastWins(pairs);
      forall i | 0 <= i < |entries|
        ensures FilenamesToIds(entries[i].1, targets) == Ok(r.value.entries[entries[i].0])
      {
        LastWinsDistinct(pairs, i);
      }
    }
  }

  // ---------------------------------------------------------------------------------------
  // The function as written, which looks at `filenames[0]` before testing for a dict.

  /** The nested value holds no dict at any depth. */
  predicate NoDicts(f: Files)
    decreases f
  {
    match f
    case Names(_) => true
    case Dict(_) => false
    case List(items) => forall i :: 0 <= i < |items| ==> NoDicts(items[i])
    case Tuple(items) => forall i :: 0 <= i < |items| ==> NoDicts(items[i])
  }

  /**
   * `filenames_to_ids` as written. On a dict, `filenames[0]` looks up the key 0, which a
   * string-keyed dict lacks; on a list or tuple whose first element is a dict, the dict
   * branch calls `.items()` on the list or tuple.
   */
  function FilenamesToIdsAsWritten(f: Files, targets: seq<Target>): (r: Result<Ids, Error>)
    ensures f.Dict? ==> r == Err(KeyError)
    ensures !f.Dict? && !f.Names? && f.items != [] && f.items[0].Dict? ==> r == Err(AttributeError)
    decreases f
  {
    match f
    case Names(names) =>
      if names == [] then Err(IndexError)
      else
        (match FlatToIds(names, targets)
         case Err(e) => Err(e)
         case Ok(ids) => Ok(IdList(ids)))
    case Dict(_) => Err(KeyError)
    case _ =>
      var items := f.items;
      if items == [] then Err(IndexError)
      else if items[0].Dict? then Err(AttributeError)
      else
        var rs := seq(|items|, i requires 0 <= i < |items| => FilenamesToIdsAsWritten(items[i], targets));
        match Collect(rs)
        case Err(e) => Err(e)
        case Ok(vs) => Ok(if items[0].Tuple? then TupleOfIds(vs) else ListOfIds(vs))
  }

  /** Where no dict occurs the written function and the corrected one agree. */
  lemma {:induction false} AsWrittenAgreesWithoutDicts(f: Files, targets: seq<Target>)
    requires NoDicts(f)
    ensures FilenamesToIdsAsWritten(f, targets) == FilenamesToIds(f, targets)
    decreases f
  {
    if !f.Names? {
      var items := f.items;
      if items != [] && !items[0].Dict? {
        forall i | 0 <= i < |items|
          ensures FilenamesToIdsAsWritten(items[i], targets) == FilenamesToIds(items[i], targets)
        {
          AsWrittenAgreesWithoutDicts(items[i], targets);
        }
        var rs := seq(|items|, i requires 0 <= i < |items| => FilenamesToIdsAsWritten(items[i], targets));
        var rs' := seq(|items|, i requires 0 <= i < |items| => FilenamesToIds(items[i], targets));
        assert rs == rs';
      }
    }
  }

  /**
   * A dict of file-name lists, the shape an init file gives, which every file name in it
   * resolves: the written function raises KeyError, the corrected one converts it.
   */
  lemma DictCounterexample()
    ensures FilenamesToIdsAsWritten(Dict([("train", Names(["a.png"]))]), [Target("a.png", "1")]) == Err(KeyError)
    ensures FilenamesToIds(Dict([("train", Names(["a.png"]))]), [Target("a.png", "1")])
         == Ok(DictOfIds(map["train" := IdList(["1"])]))
  {
    var targets := [Target("a.png", "1")];
    var leaf := Names(["a.png"]);
    var entries := [("train", leaf)];
    var table := IdTable(targets);
    assert table == map["a.png" := "1"];
    assert (set n | n in ["a.png"]) - table.Keys == {};
    var ids := seq(1, i requires 0 <= i < 1 => table[["a.png"][i]]);
    assert ids == ["1"];
    assert FlatToIds(["a.png"], targets) == Ok(["1"]);
    assert FilenamesToIds(leaf, targets) == Ok(IdList(["1"]));
    var rs := seq(|entries|, i requires 0 <= i < |entries| => FilenamesToIds(entries[i].1, targets));
    assert rs == [Ok(IdList(["1"]))];
    assert Collect(rs[1..]) == Ok([]);
    assert [IdList(["1"])] + [] == [IdList(["1"])];
    assert Collect(rs) == Ok([IdList(["1"])]);
    assert Zip(entries, [IdList(["1"])]) == [("train", IdList(["1"]))];
  }

  /** An empty list or tuple has no `filenames[0]`; a list led by a dict has no `.items()`. */
  lemma MalformedArgumentFails(targets: seq<Target>, items: seq<Files>)
    ensures FilenamesToIds(Names([]), targets) == Err(IndexError)
    ensures FilenamesToIds(List([]), targets) == Err(IndexError)
    ensures FilenamesToIds(Tuple([]), targets) == Err(IndexError)
    ensures items != [] && items[0].Dict? ==> FilenamesToIds(List(items), targets) == Err(AttributeError)
  {
  }
}
