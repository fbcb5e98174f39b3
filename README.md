# ContextsManager in Dafny

A browser-extension helper groups extensions into named *contexts* ("Work",
"Gaming", ...). A single object, `ContextsManager`, owns the ordered list of
contexts. Each context is a record `{name, imgSrc, icon, extensions}`, and
`extensions` is an ordered list of `{id}` references. The manager can:

- look a context up by name;
- test whether a context holds an extension;
- add an extension to a context without creating a duplicate;
- filter an extension out of a context;
- append a new, empty context and save the list;
- report every context as `enabled`, `disabled` or `partial` against the
  host's listing of installed extensions.

The project has four modules:

- `Contexts` (contexts.dfy): the records and the pure meaning of lookups and edits on the list.
  `FirstIndex` is the first-match scan. `WithExtensionAdded` and `WithExtensionRemoved` are the
  list after an add or a remove. `WithoutId` is the filter. The lemmas about them are here too.
- `Statuses` (statuses.dfy): the host listing as a sequence of `(id, enabled)` records. Also the
  active ids, the count of active entries, the three-way status and its characterisation.
- `Manager` (manager.dfy): the class `ContextsManager`. Its field `contextsList: seq<Context>` is
  reassigned by its methods, each time with a new value. The lookups are scan loops. The status report is a
  loop over the list. A ghost log `saves` gets one snapshot of the list per save.
- `Scenarios` (scenarios.dfy): a "Work" context holding `a` and `b` and an empty "Home" context,
  classified against three listings. It also has a client that builds them through the manager.

Names are not required to be distinct. Every lookup by name finds the first
context with that name, and `newContext` accepts a name that is already in
use. A context can also be passed as an object. `isInContext` then scans that
object itself, even when the list does not hold it. Add and remove take only
the object's name and edit the first context of the list with that name
(`Contexts.ObjectArgument`). The new context then stays hidden behind the earlier one
(`Manager.NewContextLookup`).

`isInContext` called with a name that no context has gives `false`.
The lookup yields `false`, and a `for…in` over `false.extensions` runs no
iteration. It is not treated as an error.

## Model

| member | source | states |
|---|---|---|
| `Contexts.FirstIndex` | js/classes/ContextsManager.class.js:114-126 | The result is the position of a context with that name such that no earlier context has it. `None` holds exactly when no context has the name. |
| `Contexts.LookupFirstMatch` | js/classes/ContextsManager.class.js:114-135 | A lookup finds something iff some context has the name. What it finds is a context of the list with that name, and no earlier context has the name. |
| `Contexts.WithoutId` | js/classes/ContextsManager.class.js:171-173 | The filtered list is no longer than the input. None of its entries has the id. It holds exactly the input's entries whose id differs. |
| `Contexts.WithoutIdAppend` | js/classes/ContextsManager.class.js:171-173 | Filtering distributes over concatenation, so kept entries stay in their original order. |
| `Contexts.WithoutIdCounts` | js/classes/ContextsManager.class.js:171-173 | Every entry with the id is dropped, and every other entry keeps its multiplicity. |
| `Contexts.WithoutIdAbsent` | js/classes/ContextsManager.class.js:171-173 | If no entry has the id, the filtered list equals the input. |
| `Contexts.WithoutIdIdempotent` | js/classes/ContextsManager.class.js:171-173 | Filtering twice by one id gives the same list as filtering once. |
| `Contexts.WithoutIdKeepsUnique` | js/classes/ContextsManager.class.js:171-173 | If the input has no duplicate ids, neither does the filtered list. |
| `Contexts.AddOnlyTouchesTarget` | js/classes/ContextsManager.class.js:142-155 | An add keeps the length. Every context except the first with the name is unchanged. Every name, image and icon is unchanged. The target gains `{id}` at its end iff the id was missing. A missing context leaves the list as it was. |
| `Contexts.AddThenMember` | js/classes/ContextsManager.class.js:142-155 | After an add, the name resolves to the same position. The named context holds the id iff some context has the name. |
| `Contexts.AddIdempotent` | js/classes/ContextsManager.class.js:142-155 | A second identical add changes nothing. |
| `Contexts.AddKeepsUniqueIds` | js/classes/ContextsManager.class.js:142-155 | If no context has a duplicate id, none has one after an add. |
| `Contexts.RemoveOnlyTouchesTarget` | js/classes/ContextsManager.class.js:162-175 | A remove keeps the length. Every context except the first with the name is unchanged. Every name, image and icon is unchanged. The target loses exactly the entries with the id and keeps every other entry's multiplicity. |
| `Contexts.RemoveThenAbsent` | js/classes/ContextsManager.class.js:162-175 | After a remove, the name resolves to the same position, and the named context does not hold the id. |
| `Contexts.RemoveAbsentNoop` | js/classes/ContextsManager.class.js:162-175 | A remove changes nothing if the context is missing or does not hold the id. |
| `Contexts.RemoveIdempotent` | js/classes/ContextsManager.class.js:162-175 | Removing twice has the same effect as removing once. |
| `Contexts.RemoveKeepsUniqueIds` | js/classes/ContextsManager.class.js:162-175 | If no context has a duplicate id, none has one after a remove. |
| `Contexts.AddThenRemoveRestores` | js/classes/ContextsManager.class.js:142-175 | Adding an id the named context lacks and then removing it gives back the original list. |
| `Contexts.LookupAfterAppend` | js/classes/ContextsManager.class.js:182-190 | Appending a context does not change where an existing name is found. A new name is found at the appended position. Any other name is still not found. |
| `Contexts.NameOf` | js/classes/ContextsManager.class.js:145-146 | A name argument is used as given. An object argument contributes only its `name`, so add and remove (the same test at line 166) look up the first context with that name, not the object. |
| `Contexts.Resolve` | js/classes/ContextsManager.class.js:97-98 | An object argument resolves to itself, even when the list does not hold it. A name resolves iff some context has it, and then to a context of the list with that name. |
| `Contexts.ObjectArgument` | js/classes/ContextsManager.class.js:94-175 | `isInContext` on an object is true iff that object has an entry with the id. Add and remove with an object act as with its name, and change nothing when no context has that name. |
| `Contexts.Lookup` | js/classes/ContextsManager.class.js:114-126 | The lookup finds something iff some context has the name. What it finds has that name and is in the list. `LookupFirstMatch` adds that it is the earliest such context. |
| `Contexts.InContext` | js/classes/ContextsManager.class.js:94-107 | For a context object: true iff it has an entry with the id. For a name that no context has: false. `AddThenMember` and `RemoveThenAbsent` give its value after an add or a remove. |
| `Contexts.WithExtensionAdded` | js/classes/ContextsManager.class.js:142-155 | The list after an add has the same length and names, and each extension list grows by at most one entry. `AddOnlyTouchesTarget`, `AddThenMember`, `AddIdempotent` and `AddKeepsUniqueIds` carry the rest of its meaning. |
| `Contexts.WithExtensionRemoved` | js/classes/ContextsManager.class.js:162-175 | The list after a remove has the same length and names, and no extension list grows. `RemoveOnlyTouchesTarget`, `RemoveThenAbsent`, `RemoveAbsentNoop` and `RemoveIdempotent` carry the rest of its meaning. |
| `Contexts.EmptyContext` | js/classes/ContextsManager.class.js:183-187 | The new context holds no extension id. `Manager.NewContextLookup` gives how it is found and that it is `Enabled`. |
| `Statuses.ActiveIds` | js/classes/ContextsManager.class.js:36-40 | An id is in the result iff some listing record with that id has its enabled flag set. |
| `Statuses.CountActive` | js/classes/ContextsManager.class.js:48-50 | The count is at most the number of entries. It equals that number iff every entry's id is active. It is 0 iff no entry's id is active. |
| `Statuses.StatusOf` | js/classes/ContextsManager.class.js:52-58 | `Enabled` iff every entry is active, which includes the empty context. `Disabled` iff there are entries and none is active. `Partial` iff some entry is active and some is not. So the three outcomes are exhaustive and exclusive. |
| `Statuses.Annotate` | js/classes/ContextsManager.class.js:61-67 | The report entry's status is `Enabled` iff every entry of the context is active, and `Disabled` iff the context has entries and none is active. `Manager.ContextsManager.GetContextsListWithStatuses` states that it copies the context's fields. |
| `Statuses.EmptyContextIsEnabled` | js/classes/ContextsManager.class.js:48-53 | A context without extensions is `Enabled` whatever the active ids. |
| `Statuses.StatusDependsOnlyOnMembers` | js/classes/ContextsManager.class.js:48-58 | Two active-id lists with the same members give a context the same status. |
| `Statuses.StatusAfterAppend` | js/classes/ContextsManager.class.js:48-58 | Appending an active id keeps an `Enabled` context `Enabled`. Appending an inactive id to a non-empty context that has an active entry makes it `Partial`. |
| `Manager.ContextsManager.constructor` | js/classes/ContextsManager.class.js:1-24 | The list starts as the stored list, or empty when storage holds none. No save has happened yet. |
| `Manager.ContextsManager.Init` | js/classes/ContextsManager.class.js:10-24 | The stored list, when present, replaces the list wholesale. Otherwise the list is kept. |
| `Manager.ContextsManager.SetContextsList` | js/classes/ContextsManager.class.js:76-78 | The list becomes the given one, and nothing is saved. |
| `Manager.ContextsManager.GetContextsList` | js/classes/ContextsManager.class.js:84-86 | It returns the current list. |
| `Manager.ContextsManager.LocateContext` | js/classes/ContextsManager.class.js:117-125 | The scan returns the first position whose name matches, or `None` when no context has the name. |
| `Manager.ContextsManager.GetContext` | js/classes/ContextsManager.class.js:114-126 | It returns `None` (the `false` sentinel) iff no context has the name. Otherwise it returns a context of the list with that name, and no earlier context has the name. |
| `Manager.ContextsManager.ContextExists` | js/classes/ContextsManager.class.js:133-135 | True iff some context has the name, which is exactly when `getContext` finds one. |
| `Manager.ContextsManager.IsInContext` | js/classes/ContextsManager.class.js:94-107 | For a context object: true iff one of its entries has the id. For a name: true iff the name resolves and the resolved context has such an entry, and false when the name does not resolve. |
| `Manager.ContextsManager.AddExtensionToContext` | js/classes/ContextsManager.class.js:142-155 | The new list is the add applied to the old list, under the argument's name. Duplicate-free extension lists stay duplicate-free. |
| `Manager.ContextsManager.RemoveExtensionFromContext` | js/classes/ContextsManager.class.js:162-175 | The new list is the filter applied to the first context with the argument's name. Duplicate-free extension lists stay duplicate-free. |
| `Manager.ContextsManager.NewContext` | js/classes/ContextsManager.class.js:182-190 | The list grows by exactly the new context at its end: name, image, no icon, no extensions. Earlier contexts are unchanged. Exactly one save, of the new list, is recorded. |
| `Manager.ContextsManager.Save` | js/classes/ContextsManager.class.js:195-202 | One snapshot of the current list is appended to the save log, and the list is unchanged. |
| `Manager.ContextsManager.GetContextsListWithStatuses` | js/classes/ContextsManager.class.js:31-74 | The report has the list's length and order. Entry k copies name, image, icon and extensions of context k. Its status is context k's status against the ids the listing marks enabled. |
| `Manager.NewContextLookup` | js/classes/ContextsManager.class.js:182-190 | After a new context is appended, its name finds it unless an earlier context already has that name, in which case the earlier one is found. The new context is `Enabled`. |
| `Scenarios.OnlyAEnabled` | js/classes/ContextsManager.class.js:45-58 | With only `a` enabled, Work (`a`, `b`) is `Partial` and the empty Home is `Enabled`. |
| `Scenarios.BothEnabled` | js/classes/ContextsManager.class.js:45-58 | With `a` and `b` enabled, both contexts are `Enabled`. |
| `Scenarios.NothingEnabled` | js/classes/ContextsManager.class.js:45-58 | With nothing enabled, Work is `Disabled` and Home is `Enabled`. |

## Left out

- Storage I/O in `init` and `save`: the choice between the extension storage area and
  `localStorage`, and the get and set calls. The constructor and `Init` take the stored value as
  a parameter. `Save` only appends a snapshot to a ghost log.
- The stored value is decoded outside the model (JSON parsing and serialisation are library
  calls). For the same reason, a stored value that is present but falsy, such as an empty string,
  is not distinguished from an absent one: both are `None`.
- `Manager.ContextsManager.Init`: in the `STORAGE` branch the read is asynchronous, and its
  callback replaces the list whenever it arrives. The model replaces the list at once, which is
  exact for the synchronous `localStorage` branch.
- The extension listing is a parameter of `GetContextsListWithStatuses`. The method returns the
  report instead of passing it to a callback. The asynchronous query and the check that the
  callback is a function are not modelled.
- Duck typing of arguments: a context argument is a sum type, `Named(name)` or `Given(context)`.
  An extension argument is its id string. The code reduces the object form `{id}` to that string
  before it uses it.
- Aliasing: the code returns its live list from `getContextsList`, and report entries share the
  context's `extensions` array. The model works on values, so a caller cannot change the
  manager's list through a returned value.
- `for…in` also visits enumerable properties inherited by an array. The scans model only the
  array's indices.
- The icon's contents and origin: it is an opaque optional string that is only copied.
