/**
 * The ContextsManager object: it owns the ordered list of contexts, edits it
 * in place, and reports every context's status against an extension listing.
 *
 * Persisting the list is modelled as an event: every save appends a snapshot
 * of the list to the ghost log `saves`.
 */
module Manager {
  import opened Contexts
  import opened Statuses

  class ContextsManager {
    /** The ordered list of contexts. */
    var contextsList: seq<Context>
    /** One snapshot of `contextsList` per save, oldest first. */
    ghost var saves: seq<seq<Context>>

    /**
     * Creates the manager and loads it from storage: `stored` is the list kept
     * in storage, already decoded, or `None` when storage holds nothing.
     */
    constructor (stored: Option<seq<Context>>)
      ensures contextsList == (if stored.Some? then stored.value else [])
      ensures saves == []
    {
      contextsList := [];
      saves := [];
      new;
      Init(stored);
    }

    /** Replaces the list by the stored one when storage holds a value; otherwise keeps it. */
    method Init(stored: Option<seq<Context>>)
      modifies this`contextsList
      ensures contextsList == (if stored.Some? then stored.value else old(contextsList))
    {
      if stored.Some? {
        SetContextsList(stored.value);
      }
    }

    method SetContextsList(list: seq<Context>)
      modifies this`contextsList
      ensures contextsList == list
    {
      contextsList := list;
    }

    method GetContextsList() returns (list: seq<Context>)
      ensures list == contextsList
    {
      list := contextsList;
    }

    /**
     * The scan behind `getContext`: the position of the first context named
     * `name`, or `None` when no context has that name.
     */
    method LocateContext(name: string) returns (r: Option<nat>)
      ensures r.Some? ==> r.value < |contextsList| && contextsList[r.value].name == name
      ensures r.Some? ==> forall k :: 0 <= k < r.value ==> contextsList[k].name != name
      ensures r.None? <==> forall k :: 0 <= k < |contextsList| ==> contextsList[k].name != name
      ensures r == FirstIndex(contextsList, name)
    {
      for cindex := 0 to |contextsList|
        invariant forall k :: 0 <= k < cindex ==> contextsList[k].name != name
      {
        if contextsList[cindex].name == name {
          return Some(cindex);
        }
      }
      return None;
    }

    /** The first context named `name`; `None` plays the role of the `false` sentinel. */
    method GetContext(name: string) returns (r: Option<Context>)
      ensures r.None? <==> forall k :: 0 <= k < |contextsList| ==> contextsList[k].name != name
      ensures r.Some? ==> r.value.name == name && exists k :: 0 <= k < |contextsList| && contextsList[k] == r.value &&
                                                      forall m :: 0 <= m < k ==> contextsList[m].name != name
      ensures r == Lookup(contextsList, name)
    {
      var i := LocateContext(name);
      match i {
        case None => r := None;
        case Some(k) => r := Some(contextsList[k]);
      }
    }

    method ContextExists(name: string) returns (b: bool)
      ensures b <==> exists k :: 0 <= k < |contextsList| && contextsList[k].name == name
      ensures b <==> Lookup(contextsList, name).Some?
    {
      var c := GetContext(name);
      b := c.Some?;
    }

    /**
     * Whether the context given by name or as an object has an entry with the
     * id. A name that no context has leaves nothing to scan, so the answer is
     * `false`.
     */
    method IsInContext(context: ContextArg, extId: string) returns (b: bool)
      ensures context.Given? ==> (b <==> exists j :: 0 <= j < |context.context.extensions| &&
                                                    context.context.extensions[j].id == extId)
      ensures context.Named? && Lookup(contextsList, context.name).None? ==> !b
      ensures b == InContext(contextsList, context, extId)
    {
      var contextObj: Option<Context>;
      match context {
        case Named(n) => contextObj := GetContext(n);
        case Given(c) => contextObj := Some(c);
      }
      if contextObj.None? {
        return false;
      }
      var exts := contextObj.value.extensions;
      for j := 0 to |exts|
        invariant forall k :: 0 <= k < j ==> exts[k].id != extId
      {
        if exts[j].id == extId {
          return true;
        }
      }
      return false;
    }

    /**
     * Appends `{id}` to the first context with the argument's name, unless no
     * context has that name or the context already holds the id. Not saved.
     */
    method AddExtensionToContext(context: ContextArg, extId: string)
      modifies this`contextsList
      ensures contextsList == WithExtensionAdded(old(contextsList), NameOf(context), extId)
      ensures AllUniqueIds(old(contextsList)) ==> AllUniqueIds(contextsList)
    {
      if AllUniqueIds(contextsList) { AddKeepsUniqueIds(contextsList, NameOf(context), extId); }
      var idx := LocateContext(NameOf(context));
      if idx.Some? {
        var contextObj := contextsList[idx.value];
        var present := IsInContext(Given(contextObj), extId);
        if !present {
          contextsList := contextsList[idx.value := contextObj.(extensions := contextObj.extensions + [ExtensionRef(extId)])];
        }
      }
    }

    /**
     * Filters every entry with the id out of the first context with the
     * argument's name; nothing happens when no context has that name. Not saved.
     */
    method RemoveExtensionFromContext(context: ContextArg, extId: string)
      modifies this`contextsList
      ensures contextsList == WithExtensionRemoved(old(contextsList), NameOf(context), extId)
      ensures AllUniqueIds(old(contextsList)) ==> AllUniqueIds(contextsList)
    {
      if AllUniqueIds(contextsList) { RemoveKeepsUniqueIds(contextsList, NameOf(context), extId); }
      var idx := LocateContext(NameOf(context));
      if idx.Some? {
        var contextObj := contextsList[idx.value];
        contextsList := contextsList[idx.value := contextObj.(extensions := WithoutId(contextObj.extensions, extId))];
      }
    }

    /**
     * Appends a new context with the name and image and no extensions, then
     * saves once. A name already in use is not rejected.
     */
    method NewContext(name: string, img: string)
      modifies this
      ensures contextsList == old(contextsList) + [EmptyContext(name, img)]
      ensures saves == old(saves) + [contextsList]
    {
      contextsList := contextsList + [EmptyContext(name, img)];
      Save();
    }

    /** Writes the whole list to storage: recorded as one more snapshot. */
    method Save()
      modifies this`saves
      ensures saves == old(saves) + [contextsList]
    {
      saves := saves + [contextsList];
    }

    /**
     * Every context, in list order, with its fields and its status against
     * the ids the listing marks enabled.
     */
    method GetContextsListWithStatuses(listing: seq<ExtensionInfo>) returns (r: seq<ContextWithStatus>)
      ensures |r| == |contextsList|
      ensures forall k :: 0 <= k < |r| ==>
        r[k].name == contextsList[k].name && r[k].imgSrc == contextsList[k].imgSrc &&
        r[k].icon == contextsList[k].icon && r[k].extensions == contextsList[k].extensions
      ensures forall k :: 0 <= k < |r| ==> r[k].status == StatusOf(contextsList[k], ActiveIds(listing))
    {
      var activeExtensions := ActiveIds(listing);
      r := [];
      var i := 0;
      while i < |contextsList|
        invariant 0 <= i <= |contextsList|
        invariant |r| == i
        invariant forall k :: 0 <= k < i ==> r[k] == Annotate(contextsList[k], activeExtensions)
      {
        r := r + [Annotate(contextsList[i], activeExtensions)];
        i := i + 1;
      }
    }
  }

  /**
   * A new context is found by its name unless an earlier context already has
   * that name, in which case the earlier one keeps being found; either way the
   * new context is reported `Enabled`.
   */
  lemma NewContextLookup(list: seq<Context>, name: string, img: string, active: seq<string>)
    ensures Lookup(list + [EmptyContext(name, img)], name) ==
      if Lookup(list, name).Some? then Lookup(list, name) else Some(EmptyContext(name, img))
    ensures StatusOf(EmptyContext(name, img), active) == Enabled
  {
    LookupAfterAppend(list, EmptyContext(name, img), name);
    var l := list + [EmptyContext(name, img)];
    if FirstIndex(list, name).Some? {
      assert l[FirstIndex(list, name).value] == list[FirstIndex(list, name).value];
    }
  }
}
