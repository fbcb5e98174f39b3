/**
 * Contexts: the records a ContextsManager keeps, and the pure meaning of the
 * lookups and edits it performs on its ordered list of contexts.
 *
 * A context is a named group of extension references. The list is searched
 * front to back and the first context whose name matches is the one every
 * operation works on; names are not required to be distinct.
 */
module Contexts {

  datatype Option<T> = None | Some(value: T)

  /** A reference to one browser extension, `{id}`. */
  datatype ExtensionRef = ExtensionRef(id: string)

  /** A context record: `{name, imgSrc, icon, extensions}`; `icon` is carried opaquely. */
  datatype Context = Context(name: string, imgSrc: string, icon: Option<string>, extensions: seq<ExtensionRef>)

  /**
   * A context argument as callers pass it: either the context's name or a
   * context object. (An extension argument is reduced to its id string by the
   * callers of this model, so it is passed as a plain `string`.)
   */
  datatype ContextArg = Named(name: string) | Given(context: Context)

  /** The name an add or remove call looks up: the object's `name`, or the string itself. */
  function NameOf(arg: ContextArg): (r: string)
    ensures arg.Named? ==> r == arg.name
    ensures arg.Given? ==> r == arg.context.name
  {
    match arg
    case Named(n) => n
    case Given(c) => c.name
  }

  /** Some entry of the context's extension list has the given id. */
  predicate HasExtension(c: Context, id: string)
  {
    exists j :: 0 <= j < |c.extensions| && c.extensions[j].id == id
  }

  /** No id occurs twice in an extension list. */
  predicate UniqueIds(exts: seq<ExtensionRef>)
  {
    forall i, j :: 0 <= i < j < |exts| ==> exts[i].id != exts[j].id
  }

  /** Every context of the list has an extension list without duplicate ids. */
  predicate AllUniqueIds(list: seq<Context>)
  {
    forall k :: 0 <= k < |list| ==> UniqueIds(list[k].extensions)
  }

  /** The position of the first context named `name`, scanning in list order. */
  function FirstIndex(list: seq<Context>, name: string): (r: Option<nat>)
    ensures r.Some? ==> r.value < |list| && list[r.value].name == name
    ensures r.Some? ==> forall k :: 0 <= k < r.value ==> list[k].name != name
    ensures r.None? <==> forall k :: 0 <= k < |list| ==> list[k].name != name
  {
    if |list| == 0 then None
    else if list[0].name == name then Some(0)
    else match FirstIndex(list[1..], name)
      case None => None
      case Some(i) => Some(i + 1)
  }

  /** The context `getContext(name)` yields; `None` stands for the `false` sentinel. */
  function Lookup(list: seq<Context>, name: string): (r: Option<Context>)
    ensures r.Some? <==> exists k :: 0 <= k < |list| && list[k].name == name
    ensures r.Some? ==> r.value.name == name && r.value in list
  {
    match FirstIndex(list, name)
    case None => None
    case Some(i) => Some(list[i])
  }

  /** The context an `isInContext` argument denotes: looked up by name, or the object itself. */
  function Resolve(list: seq<Context>, arg: ContextArg): (r: Option<Context>)
    ensures arg.Given? ==> r == Some(arg.context)
    ensures arg.Named? ==> (r.Some? <==> exists k :: 0 <= k < |list| && list[k].name == arg.name)
    ensures arg.Named? && r.Some? ==> r.value in list && r.value.name == arg.name
  {
    match arg
    case Named(n) => Lookup(list, n)
    case Given(c) => Some(c)
  }

  /** What `isInContext(arg, id)` answers; a name that does not resolve gives `false`. */
  predicate InContext(list: seq<Context>, arg: ContextArg, id: string)
    ensures arg.Given? ==> (InContext(list, arg, id) <==> HasExtension(arg.context, id))
    ensures arg.Named? && (forall k :: 0 <= k < |list| ==> list[k].name != arg.name) ==> !InContext(list, arg, id)
  {
    match Resolve(list, arg)
    case None => false
    case Some(c) => HasExtension(c, id)
  }

  /** The extension list with every entry of the given id filtered out. */
  function WithoutId(exts: seq<ExtensionRef>, id: string): (r: seq<ExtensionRef>)
    ensures |r| <= |exts|
    ensures forall j :: 0 <= j < |r| ==> r[j].id != id
    ensures forall x :: x in r <==> x in exts && x.id != id
  {
    if exts == [] then []
    else (if exts[0].id == id then [] else [exts[0]]) + WithoutId(exts[1..], id)
  }

  /** The list after `addExtensionToContext(name, id)`. */
  function WithExtensionAdded(list: seq<Context>, name: string, id: string): (r: seq<Context>)
    ensures |r| == |list|
    ensures forall k :: 0 <= k < |list| ==> r[k].name == list[k].name
    ensures forall k :: 0 <= k < |list| ==> |list[k].extensions| <= |r[k].extensions| <= |list[k].extensions| + 1
  {
    match FirstIndex(list, name)
    case None => list
    case Some(i) =>
      if HasExtension(list[i], id) then list
      else list[i := list[i].(extensions := list[i].extensions + [ExtensionRef(id)])]
  }

  /** The list after `removeExtensionFromContext(name, id)`. */
  function WithExtensionRemoved(list: seq<Context>, name: string, id: string): (r: seq<Context>)
    ensures |r| == |list|
    ensures forall k :: 0 <= k < |list| ==> r[k].name == list[k].name
    ensures forall k :: 0 <= k < |list| ==> |r[k].extensions| <= |list[k].extensions|
  {
    match FirstIndex(list, name)
    case None => list
    case Some(i) => list[i := list[i].(extensions := WithoutId(list[i].extensions, id))]
  }

  /** The context `newContext(name, img)` appends: no icon, no extensions. */
  function EmptyContext(name: string, img: string): (c: Context)
    ensures forall id :: !HasExtension(c, id)
  {
    Context(name, img, None, [])
  }

  // ---------------------------------------------------------------------------
  // Lookup

  /** Looking a name up finds the first context of that name, or nothing when none has it. */
  lemma LookupFirstMatch(list: seq<Context>, name: string)
    ensures Lookup(list, name).Some? <==> exists k :: 0 <= k < |list| && list[k].name == name
    ensures Lookup(list, name).Some? ==>
      exists k :: 0 <= k < |list| && list[k] == Lookup(list, name).value && list[k].name == name &&
        forall m :: 0 <= m < k ==> list[m].name != name
  {
  }

  /** Appending a context does not change what an earlier name finds; a new name finds the new context. */
  lemma {:induction false} LookupAfterAppend(list: seq<Context>, c: Context, name: string)
    ensures FirstIndex(list + [c], name) ==
      if FirstIndex(list, name).Some? then FirstIndex(list, name)
      else if c.name == name then Some(|list|)
      else None
  {
    var l := list + [c];
    assert forall k :: 0 <= k < |list| ==> l[k] == list[k];
    match FirstIndex(list, name)
    case Some(i) =>
      assert FirstIndex(l, name) == Some(i) by {
        var r := FirstIndex(l, name);
        assert r.Some? by { assert l[i].name == name; }
        assert !(r.value < i) && !(r.value > i);
      }
    case None =>
      if c.name == name {
        var r := FirstIndex(l, name);
        assert l[|list|].name == name;
        assert r.Some? && r.value == |list|;
      } else {
        assert forall k :: 0 <= k < |l| ==> l[k].name != name by {
          forall k | 0 <= k < |l| ensures l[k].name != name {
            if k < |list| { assert l[k] == list[k]; } else { assert l[k] == c; }
          }
        }
      }
  }

  /**
   * A context object is used differently by the two kinds of operation:
   * `isInContext` scans the object as given, even when the list does not hold
   * it, while add and remove only take its name and edit the first context of
   * the list with that name; when no context has that name they change nothing.
   */
  lemma ObjectArgument(list: seq<Context>, c: Context, id: string)
    ensures InContext(list, Given(c), id) <==> HasExtension(c, id)
    ensures WithExtensionAdded(list, NameOf(Given(c)), id) == WithExtensionAdded(list, c.name, id)
    ensures WithExtensionRemoved(list, NameOf(Given(c)), id) == WithExtensionRemoved(list, c.name, id)
    ensures (forall k :: 0 <= k < |list| ==> list[k].name != c.name) ==>
      WithExtensionAdded(list, NameOf(Given(c)), id) == list && WithExtensionRemoved(list, NameOf(Given(c)), id) == list
  {
  }

  // ---------------------------------------------------------------------------
  // Filtering an extension list

  /** Filtering distributes over concatenation: the kept entries stay in their original order. */
  lemma {:induction false} WithoutIdAppend(a: seq<ExtensionRef>, b: seq<ExtensionRef>, id: string)
    ensures WithoutId(a + b, id) == WithoutId(a, id) + WithoutId(b, id)
  {
    if a == [] {
      assert a + b == b;
    } else {
      assert (a + b)[0] == a[0];
      assert (a + b)[1..] == a[1..] + b;
      WithoutIdAppend(a[1..], b, id);
    }
  }

  /** Filtering drops every copy of an entry with the id and keeps every copy of every other entry. */
  lemma {:induction false} WithoutIdCounts(exts: seq<ExtensionRef>, id: string, x: ExtensionRef)
    ensures multiset(WithoutId(exts, id))[x] == if x.id == id then 0 else multiset(exts)[x]
  {
    if exts != [] {
      var head := if exts[0].id == id then [] else [exts[0]];
      WithoutIdCounts(exts[1..], id, x);
      assert exts == [exts[0]] + exts[1..];
      assert multiset(exts) == multiset([exts[0]]) + multiset(exts[1..]);
      assert multiset(WithoutId(exts, id)) == multiset(head) + multiset(WithoutId(exts[1..], id));
    }
  }

  /** A list in which no entry has the id is left exactly as it was. */
  lemma {:induction false} WithoutIdAbsent(exts: seq<ExtensionRef>, id: string)
    requires forall j :: 0 <= j < |exts| ==> exts[j].id != id
    ensures WithoutId(exts, id) == exts
  {
    if exts != [] {
      WithoutIdAbsent(exts[1..], id);
      assert exts == [exts[0]] + exts[1..];
    }
  }

  /** Filtering twice by the same id is filtering once. */
  lemma WithoutIdIdempotent(exts: seq<ExtensionRef>, id: string)
    ensures WithoutId(WithoutId(exts, id), id) == WithoutId(exts, id)
  {
    WithoutIdAbsent(WithoutId(exts, id), id);
  }

  /** Filtering keeps an extension list free of duplicate ids. */
  lemma {:induction false} WithoutIdKeepsUnique(exts: seq<ExtensionRef>, id: string)
    requires UniqueIds(exts)
    ensures UniqueIds(WithoutId(exts, id))
  {
    if exts != [] {
      var tail := exts[1..];
      assert UniqueIds(tail) by {
        forall i, j | 0 <= i < j < |tail| ensures tail[i].id != tail[j].id {
          assert tail[i] == exts[i + 1] && tail[j] == exts[j + 1];
        }
      }
      WithoutIdKeepsUnique(tail, id);
      var rest := WithoutId(tail, id);
      if exts[0].id != id {
        forall m | 0 <= m < |rest| ensures rest[m].id != exts[0].id {
          assert rest[m] in tail;
          var j :| 0 <= j < |tail| && tail[j] == rest[m];
          assert tail[j] == exts[j + 1];
        }
        var r := [exts[0]] + rest;
        forall i, j | 0 <= i < j < |r| ensures r[i].id != r[j].id {
          if i == 0 { assert r[j] == rest[j - 1]; } else { assert r[i] == rest[i - 1] && r[j] == rest[j - 1]; }
        }
      }
    }
  }

  // ---------------------------------------------------------------------------
  // Adding an extension

  /**
   * Adding touches only the first context with that name: every other entry,
   * the length, and every name, image and icon stay as they were; the target's
   * extension list gains `{id}` at its end exactly when the id was missing.
   */
  lemma AddOnlyTouchesTarget(list: seq<Context>, name: string, id: string)
    ensures |WithExtensionAdded(list, name, id)| == |list|
    ensures FirstIndex(list, name).None? ==> WithExtensionAdded(list, name, id) == list
    ensures forall k :: 0 <= k < |list| && FirstIndex(list, name) != Some(k) ==>
      WithExtensionAdded(list, name, id)[k] == list[k]
    ensures forall k :: 0 <= k < |list| ==>
      WithExtensionAdded(list, name, id)[k].(extensions := list[k].extensions) == list[k]
    ensures FirstIndex(list, name).Some? ==>
      var i := FirstIndex(list, name).value;
      WithExtensionAdded(list, name, id)[i].extensions ==
        if exists j :: 0 <= j < |list[i].extensions| && list[i].extensions[j].id == id
        then list[i].extensions
        else list[i].extensions + [ExtensionRef(id)]
  {
  }

  /** After adding, the named context (if it exists) holds the id, and lookup still finds the same position. */
  lemma AddThenMember(list: seq<Context>, name: string, id: string)
    ensures FirstIndex(WithExtensionAdded(list, name, id), name) == FirstIndex(list, name)
    ensures InContext(WithExtensionAdded(list, name, id), Named(name), id) <==>
      exists k :: 0 <= k < |list| && list[k].name == name
  {
    var r := WithExtensionAdded(list, name, id);
    SameNamesSameIndex(list, r, name);
    match FirstIndex(list, name)
    case None =>
    case Some(i) =>
      if !HasExtension(list[i], id) {
        var n := |list[i].extensions|;
        assert r[i].extensions[n].id == id;
      }
  }

  /** Two lists with the same names at every position find a name at the same position. */
  lemma SameNamesSameIndex(a: seq<Context>, b: seq<Context>, name: string)
    requires |a| == |b|
    requires forall k :: 0 <= k < |a| ==> a[k].name == b[k].name
    ensures FirstIndex(a, name) == FirstIndex(b, name)
  {
  }

  /** A second identical add changes nothing. */
  lemma AddIdempotent(list: seq<Context>, name: string, id: string)
    ensures WithExtensionAdded(WithExtensionAdded(list, name, id), name, id) == WithExtensionAdded(list, name, id)
  {
    AddThenMember(list, name, id);
  }

  /** Adding never introduces a duplicate id into any context's extension list. */
  lemma AddKeepsUniqueIds(list: seq<Context>, name: string, id: string)
    requires AllUniqueIds(list)
    ensures AllUniqueIds(WithExtensionAdded(list, name, id))
  {
  }

  // ---------------------------------------------------------------------------
  // Removing an extension

  /**
   * Removing touches only the first context with that name: every other entry,
   * the length, and every name, image and icon stay as they were; the target
   * loses exactly the entries with that id.
   */
  lemma RemoveOnlyTouchesTarget(list: seq<Context>, name: string, id: string)
    ensures |WithExtensionRemoved(list, name, id)| == |list|
    ensures FirstIndex(list, name).None? ==> WithExtensionRemoved(list, name, id) == list
    ensures forall k :: 0 <= k < |list| && FirstIndex(list, name) != Some(k) ==>
      WithExtensionRemoved(list, name, id)[k] == list[k]
    ensures forall k :: 0 <= k < |list| ==>
      WithExtensionRemoved(list, name, id)[k].(extensions := list[k].extensions) == list[k]
    ensures FirstIndex(list, name).Some? ==>
      var i := FirstIndex(list, name).value;
      var e := WithExtensionRemoved(list, name, id)[i].extensions;
      forall x :: multiset(e)[x] == if x.id == id then 0 else multiset(list[i].extensions)[x]
  {
    match FirstIndex(list, name)
    case None =>
    case Some(i) =>
      forall x { WithoutIdCounts(list[i].extensions, id, x); }
  }

  /** After removing, the named context no longer holds the id. */
  lemma RemoveThenAbsent(list: seq<Context>, name: string, id: string)
    ensures FirstIndex(WithExtensionRemoved(list, name, id), name) == FirstIndex(list, name)
    ensures !InContext(WithExtensionRemoved(list, name, id), Named(name), id)
  {
  }

  /** Removing an id the named context does not hold, or from a missing context, changes nothing. */
  lemma RemoveAbsentNoop(list: seq<Context>, name: string, id: string)
    requires !InContext(list, Named(name), id)
    ensures WithExtensionRemoved(list, name, id) == list
  {
    match FirstIndex(list, name)
    case None =>
    case Some(i) =>
      WithoutIdAbsent(list[i].extensions, id);
      assert list[i].(extensions := list[i].extensions) == list[i];
  }

  /** Removing twice has the effect of removing once. */
  lemma RemoveIdempotent(list: seq<Context>, name: string, id: string)
    ensures WithExtensionRemoved(WithExtensionRemoved(list, name, id), name, id) == WithExtensionRemoved(list, name, id)
  {
    RemoveThenAbsent(list, name, id);
    RemoveAbsentNoop(WithExtensionRemoved(list, name, id), name, id);
  }

  /** Removing keeps every context's extension list free of duplicate ids. */
  lemma RemoveKeepsUniqueIds(list: seq<Context>, name: string, id: string)
    requires AllUniqueIds(list)
    ensures AllUniqueIds(WithExtensionRemoved(list, name, id))
  {
    match FirstIndex(list, name)
    case None =>
    case Some(i) =>
      WithoutIdKeepsUnique(list[i].extensions, id);
  }

  /** Adding an id the named context lacks and then removing it restores the list. */
  lemma AddThenRemoveRestores(list: seq<Context>, name: string, id: string)
    requires !InContext(list, Named(name), id)
    ensures WithExtensionRemoved(WithExtensionAdded(list, name, id), name, id) == list
  {
    match FirstIndex(list, name)
    case None =>
    case Some(i) =>
      var e := list[i].extensions;
      var added := list[i := list[i].(extensions := e + [ExtensionRef(id)])];
      assert WithExtensionAdded(list, name, id) == added;
      SameNamesSameIndex(list, added, name);
      assert WithoutId(e + [ExtensionRef(id)], id) == e by {
        WithoutIdAppend(e, [ExtensionRef(id)], id);
        WithoutIdAbsent(e, id);
        assert WithoutId([ExtensionRef(id)], id) == [];
      }
      assert added[i := list[i]] == list;
  }
}
