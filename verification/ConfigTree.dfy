/** Configuration documents and the leaves a reload compares
    (sysadmin/reload.py, `_flatten` and `changed_under`). */
module ConfigTree {
  import opened Dotted
  import opened Ordering

  /** `model_dump(mode="json")`.  An object keeps its iteration order. */
  datatype Json =
    | Null
    | Bool(b: bool)
    | Number(n: real)
    | Text(s: string)
    | List(items: seq<Json>)
    | Object(entries: seq<Entry>)

  datatype Entry = Entry(key: string, value: Json)

  type Leaves = map<string, Json>

  function Path(prefix: string, key: string): string {
    if prefix != "" then prefix + "." + key else key
  }

  /** `_flatten`: every value that is not an object, under its dotted path.
      Lists are leaves. */
  function Flatten(value: Json, prefix: string): Leaves
    decreases value, 1
  {
    if value.Object? then FlattenEntries(value.entries, prefix) else map[prefix := value]
  }

  /** The loop of `_flatten`: a later key's leaves overwrite an earlier one's. */
  function FlattenEntries(entries: seq<Entry>, prefix: string): Leaves
    decreases entries, 0
  {
    if entries == [] then map[]
    else Flatten(entries[0].value, Path(prefix, entries[0].key)) + FlattenEntries(entries[1..], prefix)
  }

  /** A Python dict whose keys can be read back out of a dotted path. */
  predicate WellKeyed(value: Json)
    decreases value
  {
    value.Object? ==>
      && (forall i | 0 <= i < |value.entries| :: IsKey(value.entries[i].key) && WellKeyed(value.entries[i].value))
      && (forall i, j | 0 <= i < j < |value.entries| :: value.entries[i].key != value.entries[j].key)
  }

  function Lookup(entries: seq<Entry>, key: string): (r: Option<Json>)
    ensures r.Some? <==> exists i :: 0 <= i < |entries| && entries[i].key == key
    ensures r.Some? ==> exists i :: 0 <= i < |entries| && entries[i] == Entry(key, r.value)
  {
    if entries == [] then None
    else if entries[0].key == key then Some(entries[0].value)
    else Lookup(entries[1..], key)
  }

  /** The leaf a component path leads to, by walking the document: the
      reference reading that `Flatten` is compared with. */
  function LeafAt(value: Json, path: seq<string>): Option<Json>
    decreases |path|
  {
    if path == [] then (if value.Object? then None else Some(value))
    else if !value.Object? then None
    else
      var sub := Lookup(value.entries, path[0]);
      if sub.Some? then LeafAt(sub.value, path[1..]) else None
  }

  // ---- Flatten means LeafAt -------------------------------------------------

  lemma PathIsJoin(above: seq<string>, key: string)
    requires IsKeyPath(above) && IsKey(key)
    ensures Path(Join(above), key) == Join(above + [key])
  {
    JoinNonEmpty(above);
    if above != [] {
      JoinAppend(above, [key]);
    } else {
      assert above + [key] == [key];
    }
  }

  /** The parts of a well-keyed object, and where a path into it goes. */
  lemma FirstEntry(entries: seq<Entry>)
    requires WellKeyed(Object(entries)) && entries != []
    ensures IsKey(entries[0].key) && WellKeyed(entries[0].value)
    ensures WellKeyed(Object(entries[1..])) && Lookup(entries[1..], entries[0].key).None?
  {
    var whole := Object(entries);
    assert IsKey(whole.entries[0].key);
    var rest := entries[1..];
    assert forall i | 0 <= i < |rest| :: rest[i] == whole.entries[i + 1];
  }

  lemma LeafByFirstKey(entries: seq<Entry>, path: seq<string>)
    requires entries != [] && path != []
    ensures LeafAt(Object(entries), path) ==
      if path[0] == entries[0].key then LeafAt(entries[0].value, path[1..]) else LeafAt(Object(entries[1..]), path)
  {
  }

  /** Whatever the flattened form lists is a leaf of the document, under its
      own path and with its own value. */
  lemma {:induction false} ListedIsLeaf(value: Json, above: seq<string>, text: string) returns (path: seq<string>)
    requires WellKeyed(value) && IsKeyPath(above)
    requires text in Flatten(value, Join(above))
    ensures IsKeyPath(path) && text == Join(above + path)
    ensures LeafAt(value, path) == Some(Flatten(value, Join(above))[text])
    decreases value, 1
  {
    if value.Object? {
      path := ListedEntryIsLeaf(value.entries, above, text);
      assert value == Object(value.entries);
    } else {
      path := [];
      assert above + [] == above;
    }
  }

  lemma {:induction false} ListedEntryIsLeaf(entries: seq<Entry>, above: seq<string>, text: string)
    returns (path: seq<string>)
    requires WellKeyed(Object(entries)) && IsKeyPath(above)
    requires text in FlattenEntries(entries, Join(above))
    ensures IsKeyPath(path) && text == Join(above + path)
    ensures LeafAt(Object(entries), path) == Some(FlattenEntries(entries, Join(above))[text])
    decreases entries, 0
  {
    var Entry(key, sub) := entries[0];
    var rest := entries[1..];
    FirstEntry(entries);
    if text in FlattenEntries(rest, Join(above)) {
      path := ListedEntryIsLeaf(rest, above, text);
      LeafByFirstKey(entries, path);
    } else {
      PathIsJoin(above, key);
      var below := ListedIsLeaf(sub, above + [key], text);
      path := [key] + below;
      assert above + [key] + below == above + path;
      LeafByFirstKey(entries, path);
      assert path[1..] == below;
    }
  }

  /** Every leaf of the document is listed. */
  lemma {:induction false} LeafIsListed(value: Json, above: seq<string>, path: seq<string>)
    requires WellKeyed(value) && IsKeyPath(above) && IsKeyPath(path)
    requires LeafAt(value, path).Some?
    ensures Join(above + path) in Flatten(value, Join(above))
    decreases value, 1
  {
    if value.Object? {
      assert value == Object(value.entries);
      LeafEntryIsListed(value.entries, above, path);
    } else {
      assert above + path == above;
    }
  }

  lemma {:induction false} LeafEntryIsListed(entries: seq<Entry>, above: seq<string>, path: seq<string>)
    requires WellKeyed(Object(entries)) && IsKeyPath(above) && IsKeyPath(path)
    requires LeafAt(Object(entries), path).Some?
    ensures Join(above + path) in FlattenEntries(entries, Join(above))
    decreases entries, 0
  {
    var Entry(key, sub) := entries[0];
    var rest := entries[1..];
    FirstEntry(entries);
    LeafByFirstKey(entries, path);
    if path[0] == key {
      PathIsJoin(above, key);
      LeafIsListed(sub, above + [key], path[1..]);
      assert above + [key] + path[1..] == above + path;
    } else {
      LeafEntryIsListed(rest, above, path);
    }
  }

  /** The leaf under a dotted path, absent read as null: `leaves.get(path)`. */
  function Get(leaves: Leaves, path: string): Json {
    if path in leaves then leaves[path] else Null
  }

  /** Flattening a document whose keys are non-empty and dot-free puts exactly
      its leaves under exactly their own paths. */
  lemma FlattenMeaning(value: Json, path: seq<string>)
    requires WellKeyed(value) && IsKeyPath(path)
    ensures Join(path) in Flatten(value, "") <==> LeafAt(value, path).Some?
    ensures LeafAt(value, path).Some? ==> Flatten(value, "")[Join(path)] == LeafAt(value, path).value
  {
    assert [] + path == path;
    if LeafAt(value, path).Some? {
      LeafIsListed(value, [], path);
    }
    if Join(path) in Flatten(value, "") {
      var listed := ListedIsLeaf(value, [], Join(path));
      assert [] + listed == listed;
      JoinInjective(path, listed);
    }
  }

  // ---- Injectivity, up to empty sub-objects ----------------------------------

  /** An object with no leaf anywhere below it. */
  predicate Hollow(value: Json)
    decreases value
  {
    value.Object? && forall i | 0 <= i < |value.entries| :: Hollow(value.entries[i].value)
  }

  /** The two documents say the same thing: same keys leading to same things,
      where a key leading to a hollow object may as well be missing.  Order of
      keys does not matter. */
  ghost predicate SameSettings(a: Json, b: Json)
    decreases a
  {
    if a.Object? && b.Object? then
      && (forall i | 0 <= i < |a.entries| ::
            var other := Lookup(b.entries, a.entries[i].key);
            if other.Some? then SameSettings(a.entries[i].value, other.value) else Hollow(a.entries[i].value))
      && (forall j | 0 <= j < |b.entries| ::
            Lookup(a.entries, b.entries[j].key).None? ==> Hollow(b.entries[j].value))
    else a == b
  }

  lemma {:induction false} HollowMeansNoLeaf(value: Json)
    requires WellKeyed(value)
    ensures Hollow(value) <==> forall path | IsKeyPath(path) :: LeafAt(value, path).None?
    decreases value
  {
    if value.Object? {
      forall i | 0 <= i < |value.entries|
        ensures Hollow(value.entries[i].value) <==>
          forall path | IsKeyPath(path) :: LeafAt(value.entries[i].value, path).None?
      {
        HollowMeansNoLeaf(value.entries[i].value);
      }
      if !Hollow(value) {
        var i :| 0 <= i < |value.entries| && !Hollow(value.entries[i].value);
        var below :| IsKeyPath(below) && LeafAt(value.entries[i].value, below).Some?;
        LookupAt(value.entries, i);
        var path := [value.entries[i].key] + below;
        assert path[1..] == below;
        assert IsKeyPath(path) && LeafAt(value, path).Some?;
      } else {
        forall path | IsKeyPath(path)
          ensures LeafAt(value, path).None?
        {
          if path != [] && Lookup(value.entries, path[0]).Some? {
            assert IsKeyPath(path[1..]);
          }
        }
      }
    } else {
      assert IsKeyPath([]) && LeafAt(value, []).Some?;
    }
  }

  lemma {:induction false} LookupAt(entries: seq<Entry>, i: nat)
    requires i < |entries|
    requires forall i, j | 0 <= i < j < |entries| :: entries[i].key != entries[j].key
    ensures Lookup(entries, entries[i].key) == Some(entries[i].value)
  {
    if i > 0 {
      LookupAt(entries[1..], i - 1);
    }
  }

  lemma {:induction false} SameSettingsSameLeaf(a: Json, b: Json, path: seq<string>)
    requires WellKeyed(a) && WellKeyed(b) && IsKeyPath(path)
    requires SameSettings(a, b)
    ensures LeafAt(a, path) == LeafAt(b, path)
    decreases |path|
  {
    if path != [] && a.Object? && b.Object? {
      var x, y := Lookup(a.entries, path[0]), Lookup(b.entries, path[0]);
      var rest := path[1..];
      if x.Some? {
        var i :| 0 <= i < |a.entries| && a.entries[i] == Entry(path[0], x.value);
        assert WellKeyed(a.entries[i].value);
        if y.Some? {
          SameSettingsSameLeaf(x.value, y.value, rest);
        } else {
          assert Lookup(b.entries, a.entries[i].key).None?;
          assert Hollow(a.entries[i].value) && IsKeyPath(rest);
          HollowMeansNoLeaf(x.value);
        }
      } else if y.Some? {
        var j :| 0 <= j < |b.entries| && b.entries[j] == Entry(path[0], y.value);
        assert Hollow(b.entries[j].value) && IsKeyPath(rest);
        HollowMeansNoLeaf(y.value);
      }
    }
  }

  lemma {:induction false} SameLeavesSameSettings(a: Json, b: Json)
    requires WellKeyed(a) && WellKeyed(b)
    requires forall path | IsKeyPath(path) :: LeafAt(a, path) == LeafAt(b, path)
    ensures SameSettings(a, b)
    decreases a
  {
    assert IsKeyPath([]) && LeafAt(a, []) == LeafAt(b, []);
    if a.Object? && b.Object? {
      forall i | 0 <= i < |a.entries|
        ensures var other := Lookup(b.entries, a.entries[i].key);
                if other.Some? then SameSettings(a.entries[i].value, other.value) else Hollow(a.entries[i].value)
      {
        LookupAt(a.entries, i);
        var other := Lookup(b.entries, a.entries[i].key);
        forall below | IsKeyPath(below)
          ensures LeafAt(a.entries[i].value, below) == if other.Some? then LeafAt(other.value, below) else None
        {
          BelowKey(a, b, a.entries[i].key, below);
        }
        if other.Some? {
          SameLeavesSameSettings(a.entries[i].value, other.value);
        } else {
          HollowMeansNoLeaf(a.entries[i].value);
        }
      }
      forall j | 0 <= j < |b.entries| && Lookup(a.entries, b.entries[j].key).None?
        ensures Hollow(b.entries[j].value)
      {
        LookupAt(b.entries, j);
        forall below | IsKeyPath(below)
          ensures LeafAt(b.entries[j].value, below).None?
        {
          BelowKey(a, b, b.entries[j].key, below);
        }
        HollowMeansNoLeaf(b.entries[j].value);
      }
    }
  }

  /** The common hypothesis, read one key further down. */
  lemma BelowKey(a: Json, b: Json, key: string, below: seq<string>)
    requires a.Object? && b.Object? && IsKey(key) && IsKeyPath(below)
    requires forall path | IsKeyPath(path) :: LeafAt(a, path) == LeafAt(b, path)
    ensures (var x := Lookup(a.entries, key); if x.Some? then LeafAt(x.value, below) else None)
         == (var y := Lookup(b.entries, key); if y.Some? then LeafAt(y.value, below) else None)
  {
    var path := [key] + below;
    assert path[1..] == below;
    assert IsKeyPath(path);
    assert LeafAt(a, path) == LeafAt(b, path);
  }

  /** `_flatten` is injective up to empty sub-objects and key order: two
      documents flatten to the same leaves exactly when they say the same. */
  lemma FlattenInjective(a: Json, b: Json)
    requires WellKeyed(a) && WellKeyed(b)
    ensures Flatten(a, "") == Flatten(b, "") <==> SameSettings(a, b)
  {
    if Flatten(a, "") == Flatten(b, "") {
      forall path | IsKeyPath(path)
        ensures LeafAt(a, path) == LeafAt(b, path)
      {
        FlattenMeaning(a, path);
        FlattenMeaning(b, path);
      }
      SameLeavesSameSettings(a, b);
    }
    if SameSettings(a, b) {
      forall text
        ensures text in Flatten(a, "") ==> text in Flatten(b, "") && Flatten(a, "")[text] == Flatten(b, "")[text]
        ensures text in Flatten(b, "") ==> text in Flatten(a, "")
      {
        if text in Flatten(a, "") {
          var path := ListedIsLeaf(a, [], text);
          assert [] + path == path;
          SameSettingsSameLeaf(a, b, path);
          FlattenMeaning(b, path);
        }
        if text in Flatten(b, "") {
          var path := ListedIsLeaf(b, [], text);
          assert [] + path == path;
          SameSettingsSameLeaf(a, b, path);
          FlattenMeaning(a, path);
        }
      }
    }
  }

  /** The hypothesis on keys is needed: a key holding a dot flattens like two
      nested keys. */
  lemma DottedKeysCollide()
    ensures
      var flat := Object([Entry("a.b", Null)]);
      var nested := Object([Entry("a", Object([Entry("b", Null)]))]);
      Flatten(flat, "") == Flatten(nested, "") && !SameSettings(flat, nested)
  {
    var flat := Object([Entry("a.b", Null)]);
    var inner := Object([Entry("b", Null)]);
    var nested := Object([Entry("a", inner)]);
    assert FlattenEntries(flat.entries, "") == map["a.b" := Null];
    assert Path("a", "b") == "a.b";
    assert FlattenEntries(inner.entries, "a") == Flatten(Null, "a.b") + FlattenEntries([], "a");
    assert FlattenEntries(inner.entries, "a") == map["a.b" := Null];
    assert FlattenEntries(nested.entries, "") == Flatten(inner, "a") + FlattenEntries([], "");
    assert "a.b" != "a" by { assert |"a.b"| == 3; }
    assert Lookup(nested.entries, flat.entries[0].key).None?;
    assert !Hollow(flat.entries[0].value);
  }

  // ---- changed_under -----------------------------------------------------------

  /** The leaf lies under one of the prefixes, component by component. */
  predicate Under(prefixes: seq<string>, path: string) {
    exists i :: 0 <= i < |prefixes| && Split(prefixes[i]) <= Split(path)
  }

  /** The leaf moved between two flattened documents, absent read as null. */
  predicate Moved(old_: Leaves, new_: Leaves, path: string) {
    Get(old_, path) != Get(new_, path)
  }

  /** What `changed_under` must name. */
  function ChangedSet(old_: Leaves, new_: Leaves, prefixes: seq<string>): set<string> {
    set path | path in old_.Keys + new_.Keys && Under(prefixes, path) && Moved(old_, new_, path)
  }

  predicate Reported(old_: Leaves, new_: Leaves, prefixes: seq<string>, path: string) {
    Under(prefixes, path) && Moved(old_, new_, path)
  }

  /** The paths the loop of `changed_under` keeps, in order. */
  function Kept(old_: Leaves, new_: Leaves, prefixes: seq<string>, paths: seq<string>): seq<string> {
    if paths == [] then []
    else
      var last := paths[|paths| - 1];
      Kept(old_, new_, prefixes, paths[..|paths| - 1]) +
      if Reported(old_, new_, prefixes, last) then [last] else []
  }

  lemma {:induction false} KeptMeaning(old_: Leaves, new_: Leaves, prefixes: seq<string>, paths: seq<string>)
    requires Increasing(paths)
    ensures var kept := Kept(old_, new_, prefixes, paths);
      && Increasing(kept)
      && forall path :: path in kept <==> path in paths && Reported(old_, new_, prefixes, path)
  {
    if paths != [] {
      var front, last := paths[..|paths| - 1], paths[|paths| - 1];
      assert paths == front + [last];
      KeptMeaning(old_, new_, prefixes, front);
      forall c | c in front
        ensures LexLeq(c, last) && c != last
      {
        var i :| 0 <= i < |front| && front[i] == c;
        assert paths[i] == c && paths[|paths| - 1] == last;
      }
    }
  }

  method IsUnder(prefixes: seq<string>, path: string) returns (under: bool)
    ensures under <==> Under(prefixes, path)
  {
    for i := 0 to |prefixes|
      invariant forall j | 0 <= j < i :: !(Split(prefixes[j]) <= Split(path))
    {
      TextUnderIsComponentPrefix(prefixes[i], path);
      if TextUnder(prefixes[i], path) {
        return true;
      }
    }
    return false;
  }

  /** `changed_under`: exactly the leaves under the prefixes that moved, in
      order, each once. */
  method ChangedUnder(old_: Json, new_: Json, prefixes: seq<string>) returns (changed: seq<string>)
    ensures Increasing(changed)
    ensures Elements(changed) == ChangedSet(Flatten(old_, ""), Flatten(new_, ""), prefixes)
  {
    var oldLeaves, newLeaves := Flatten(old_, ""), Flatten(new_, "");
    var paths := SortStrings(oldLeaves.Keys + newLeaves.Keys);
    changed := KeepMoved(oldLeaves, newLeaves, prefixes, paths);
    KeptIsChanged(oldLeaves, newLeaves, prefixes, paths);
  }

  /** The loop over the sorted paths. */
  method KeepMoved(oldLeaves: Leaves, newLeaves: Leaves, prefixes: seq<string>, paths: seq<string>)
    returns (changed: seq<string>)
    ensures changed == Kept(oldLeaves, newLeaves, prefixes, paths)
  {
    changed := [];
    for k := 0 to |paths|
      invariant changed == Kept(oldLeaves, newLeaves, prefixes, paths[..k])
    {
      assert paths[..k + 1][..k] == paths[..k];
      var under := IsUnder(prefixes, paths[k]);
      if under && Get(oldLeaves, paths[k]) != Get(newLeaves, paths[k]) {
        changed := changed + [paths[k]];
      }
    }
    assert paths[..|paths|] == paths;
  }

  lemma KeptIsChanged(oldLeaves: Leaves, newLeaves: Leaves, prefixes: seq<string>, paths: seq<string>)
    requires Increasing(paths) && Elements(paths) == oldLeaves.Keys + newLeaves.Keys
    ensures Increasing(Kept(oldLeaves, newLeaves, prefixes, paths))
    ensures Elements(Kept(oldLeaves, newLeaves, prefixes, paths)) == ChangedSet(oldLeaves, newLeaves, prefixes)
  {
    KeptMeaning(oldLeaves, newLeaves, prefixes, paths);
    assert forall path :: path in paths <==> path in Elements(paths);
  }

  /** No leaf that moved escapes for being missing on one side. */
  lemma ChangedSetComplete(old_: Leaves, new_: Leaves, prefixes: seq<string>, path: string)
    ensures path in ChangedSet(old_, new_, prefixes) <==> Under(prefixes, path) && Moved(old_, new_, path)
  {
  }

  /** A leaf present in one file only has moved exactly when it is not null there. */
  lemma AbsentReadsAsNull(old_: Leaves, new_: Leaves, path: string)
    requires path !in old_
    ensures Moved(old_, new_, path) <==> path in new_ && new_[path] != Null
    ensures Moved(new_, old_, path) <==> path in new_ && new_[path] != Null
  {
  }

  /** A prefix never captures a longer sibling: `service` says nothing about
      `services.x`, whatever the documents hold. */
  lemma PrefixIsComponentwise(prefix: string, path: string)
    requires Under([prefix], path)
    ensures path == prefix || (|path| > |prefix| && path[|prefix|] == '.')
  {
    var i :| 0 <= i < |[prefix]| && Split([prefix][i]) <= Split(path);
    TextUnderIsComponentPrefix(prefix, path);
  }
}
