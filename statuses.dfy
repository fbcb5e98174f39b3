/**
 * Statuses: how a context is classified against the host's extension listing.
 *
 * The listing is a sequence of `(id, enabled)` records; the ids whose flag is
 * set are the active ids. A context is `Enabled` when every one of its entries
 * is active (so a context without entries is `Enabled`), `Disabled` when it has
 * entries and none is active, and `Partial` otherwise.
 */
module Statuses {
  import opened Contexts

  datatype Status = Enabled | Disabled | Partial

  /** One record of the host's extension listing. */
  datatype ExtensionInfo = ExtensionInfo(id: string, enabled: bool)

  /** A context as reported with its status: the context's fields plus `status`. */
  datatype ContextWithStatus = ContextWithStatus(
    name: string, imgSrc: string, icon: Option<string>, extensions: seq<ExtensionRef>, status: Status)

  /** The ids of the enabled extensions, in listing order. */
  function ActiveIds(listing: seq<ExtensionInfo>): (r: seq<string>)
    ensures |r| <= |listing|
    ensures forall id :: id in r <==> exists k :: 0 <= k < |listing| && listing[k].enabled && listing[k].id == id
  {
    if listing == [] then []
    else (if listing[0].enabled then [listing[0].id] else []) + ActiveIds(listing[1..])
  }

  /** How many entries of the extension list have an active id; each entry counts once. */
  function CountActive(exts: seq<ExtensionRef>, active: seq<string>): (n: nat)
    ensures n <= |exts|
    ensures n == |exts| <==> forall j :: 0 <= j < |exts| ==> exts[j].id in active
    ensures n == 0 <==> forall j :: 0 <= j < |exts| ==> exts[j].id !in active
  {
    if exts == [] then 0
    else (if exts[0].id in active then 1 else 0) + CountActive(exts[1..], active)
  }

  /** The status of one context against the active ids. */
  function StatusOf(c: Context, active: seq<string>): (s: Status)
    ensures s == Enabled <==> forall j :: 0 <= j < |c.extensions| ==> c.extensions[j].id in active
    ensures s == Disabled <==>
      |c.extensions| > 0 && forall j :: 0 <= j < |c.extensions| ==> c.extensions[j].id !in active
    ensures s == Partial <==>
      (exists j :: 0 <= j < |c.extensions| && c.extensions[j].id in active) &&
      (exists j :: 0 <= j < |c.extensions| && c.extensions[j].id !in active)
  {
    var countActive := CountActive(c.extensions, active);
    if countActive == |c.extensions| then Enabled
    else if countActive == 0 then Disabled
    else Partial
  }

  /** The entry reported for a context: its own fields, unchanged, plus its status. */
  function Annotate(c: Context, active: seq<string>): (r: ContextWithStatus)
    ensures r.status == Enabled <==> forall j :: 0 <= j < |c.extensions| ==> c.extensions[j].id in active
    ensures r.status == Disabled <==>
      |c.extensions| > 0 && forall j :: 0 <= j < |c.extensions| ==> c.extensions[j].id !in active
  {
    ContextWithStatus(c.name, c.imgSrc, c.icon, c.extensions, StatusOf(c, active))
  }

  /** A context without extensions is reported `Enabled`, whatever is active. */
  lemma EmptyContextIsEnabled(c: Context, active: seq<string>)
    requires c.extensions == []
    ensures StatusOf(c, active) == Enabled
  {
  }

  /**
   * The status counts entries, not distinct ids, but the outcome depends only
   * on which ids are active: two active-id sequences with the same members give
   * every context the same status.
   */
  lemma StatusDependsOnlyOnMembers(c: Context, a: seq<string>, b: seq<string>)
    requires forall id :: id in a <==> id in b
    ensures StatusOf(c, a) == StatusOf(c, b)
  {
  }

  /**
   * Adding an extension to a context through the manager can only move its
   * status as its activity says: an active id keeps an `Enabled` context
   * `Enabled`, an inactive id turns a context with an active entry `Partial`.
   */
  lemma StatusAfterAppend(c: Context, id: string, active: seq<string>)
    ensures id in active && StatusOf(c, active) == Enabled ==>
      StatusOf(c.(extensions := c.extensions + [ExtensionRef(id)]), active) == Enabled
    ensures id !in active && StatusOf(c, active) in {Enabled, Partial} && c.extensions != [] ==>
      StatusOf(c.(extensions := c.extensions + [ExtensionRef(id)]), active) == Partial
  {
    var e := c.extensions + [ExtensionRef(id)];
    assert forall j :: 0 <= j < |c.extensions| ==> e[j] == c.extensions[j];
    assert e[|c.extensions|].id == id;
    if id !in active && StatusOf(c, active) in {Enabled, Partial} && c.extensions != [] {
      var j :| 0 <= j < |c.extensions| && c.extensions[j].id in active;
      assert e[j].id in active;
    }
  }
}
