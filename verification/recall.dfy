/**
 * The registry actions of recall.py: save, detach, forget, purge, combine,
 * promote, rename, alias editing, command and auto-assign settings, the
 * refresh done when a saved window is recalled, and the close / title /
 * focus event hooks. Each is a pure transition of the `Registry`.
 */
module Recall {
  import opened Common
  import opened Text
  import opened Dicts
  import opened RecallState
  import opened RecallCommands
  import opened RecallTerminal

  /** Aliases of the entry under `name`, or none when there is no such entry. */
  function AliasesOf(active: Dict<Entry>, name: string): seq<string> {
    if Has(active, name) then Get(active, name).aliases else []
  }

  /** `aliases` with `x` appended unless already present. */
  function AppendIfAbsent(aliases: seq<string>, x: string): (r: seq<string>)
    ensures x in r
    ensures forall y :: y in r <==> y in aliases || y == x
    ensures |aliases| <= |r| <= |aliases| + 1 && r[..|aliases|] == aliases
    ensures Distinct(aliases) ==> Distinct(r)
    ensures x in aliases ==> r == aliases
  {
    if x in aliases then aliases else aliases + [x]
  }

  // ---------------------------------------------------------------------------
  // save_window

  /** `find_name_for_window_id` answered with an entry other than `name` (and a
      non-empty one), so `save_window` adds `name` as an alias of it. */
  predicate FoldsIntoAlias(owner: Option<string>, name: string) {
    owner.Some? && owner.value != "" && owner.value != name
  }

  /** The path `save_window` records: the title's directory for terminals, the
      editor's workspace folder for Code, otherwise none. */
  function DetectPath(o: Oracles, app: string, title: string, workspace: Option<string>): Option<string> {
    if IsTerminal(app) then DetectTerminalPath(o, title)
    else if app == "Code" then workspace
    else None
  }

  /** `save_window(name)` for the focused window `w` of application `app`.
      `owner` is what `find_name_for_window_id(w.id)` returned; that function is
      not part of this model and is assumed only to name an active entry holding
      `w`'s id. `workspace` is the editor's workspace path, when it has one. */
  function SaveWindow(reg: Registry, forbidden: map<string, string>, o: Oracles, name: string,
                      w: Window, app: string, owner: Option<string>, workspace: Option<string>): (r: Registry)
    requires owner.Some? ==> Has(reg.active, owner.value) && Get(reg.active, owner.value).id == Some(w.id)
    ensures IsForbidden(forbidden, name) ==> r == reg
    ensures r.archive == reg.archive
    ensures !IsForbidden(forbidden, name) && FoldsIntoAlias(owner, name) ==>
      && Keys(r.active) == Keys(reg.active)
      && Has(r.active, owner.value)
      && Get(r.active, owner.value) == Get(reg.active, owner.value).(aliases := AppendIfAbsent(Get(reg.active, owner.value).aliases, name))
      && AgreeExcept(reg.active, r.active, {owner.value})
    ensures !IsForbidden(forbidden, name) && !FoldsIntoAlias(owner, name) ==>
      && Has(r.active, name)
      && Get(r.active, name) == Entry(Some(w.id), app, w.title, DetectPath(o, app, w.title, workspace), AliasesOf(reg.active, name), None, false)
      && AgreeExcept(reg.active, r.active, {name})
      && Keys(r.active) == Placed(Keys(reg.active), name)
    ensures reg.Valid() ==> r.Valid()
  {
    if IsForbidden(forbidden, name) then reg
    else if FoldsIntoAlias(owner, name) then
      var e := Get(reg.active, owner.value);
      PutAgree(reg.active, owner.value, e.(aliases := AppendIfAbsent(e.aliases, name)));
      PutKeepsValid(reg.active, owner.value, e.(aliases := AppendIfAbsent(e.aliases, name)));
      reg.(active := Put(reg.active, owner.value, e.(aliases := AppendIfAbsent(e.aliases, name))))
    else
      var entry := Entry(Some(w.id), app, w.title, DetectPath(o, app, w.title, workspace), AliasesOf(reg.active, name), None, false);
      PutAgree(reg.active, name, entry);
      PutKeepsValid(reg.active, name, entry);
      assert Keys(Put(reg.active, name, entry)) == Placed(Keys(reg.active), name) by {
        PutKeys(reg.active, name, entry);
      }
      reg.(active := Put(reg.active, name, entry))
  }

  /** Saving the same window under the same name twice changes nothing the second
      time, given the lookup answers consistently: the same entry when the name
      was folded in as an alias, the freshly saved entry (or nothing) otherwise. */
  lemma SaveWindowIdempotent(reg: Registry, forbidden: map<string, string>, o: Oracles, name: string,
                             w: Window, app: string, owner: Option<string>, owner2: Option<string>,
                             workspace: Option<string>)
    requires owner.Some? ==> Has(reg.active, owner.value) && Get(reg.active, owner.value).id == Some(w.id)
    requires FoldsIntoAlias(owner, name) ==> owner2 == owner
    requires !FoldsIntoAlias(owner, name) ==> !FoldsIntoAlias(owner2, name)
    requires var r1 := SaveWindow(reg, forbidden, o, name, w, app, owner, workspace);
             owner2.Some? ==> Has(r1.active, owner2.value) && Get(r1.active, owner2.value).id == Some(w.id)
    ensures var r1 := SaveWindow(reg, forbidden, o, name, w, app, owner, workspace);
            SaveWindow(r1, forbidden, o, name, w, app, owner2, workspace) == r1
  {
    var r1 := SaveWindow(reg, forbidden, o, name, w, app, owner, workspace);
    if !IsForbidden(forbidden, name) {
      if FoldsIntoAlias(owner, name) {
        var e := Get(reg.active, owner.value);
        var e1 := e.(aliases := AppendIfAbsent(e.aliases, name));
        assert Get(r1.active, owner.value) == e1;
        assert Put(r1.active, owner.value, e1) == r1.active by {
          PutSame(r1.active, owner.value);
        }
      } else {
        var e1 := Get(r1.active, name);
        assert AliasesOf(r1.active, name) == e1.aliases;
        PutSame(r1.active, name);
      }
    }
  }

  /** Writing back the value a key already holds leaves the dictionary as it is. */
  lemma {:induction false} PutSame<V>(d: Dict<V>, k: string)
    requires Has(d, k)
    ensures Put(d, k, Get(d, k)) == d
  {
    if d[0].0 != k {
      PutSame(d[1..], k);
      assert [d[0]] + d[1..] == d;
    } else {
      assert [(k, d[0].1)] + d[1..] == d;
    }
  }

  // ---------------------------------------------------------------------------
  // recall_detach, forget_window, forget_all_windows, recall_purge

  /** `detect_terminal_path`, as `save_window` uses it, only records existing directories. */
  lemma SavedTerminalPathIsDirectory(o: Oracles, app: string, title: string, workspace: Option<string>)
    requires IsTerminal(app) && DetectPath(o, app, title, workspace).Some?
    ensures o.isDir(DetectPath(o, app, title, workspace).value)
  {
  }

  /** `recall_detach`: forget the window handle, keep everything else. */
  function Detach(reg: Registry, name: string): (r: Registry)
    ensures !Has(reg.active, name) ==> r == reg
    ensures Has(reg.active, name) ==> Has(r.active, name) && Get(r.active, name) == Get(reg.active, name).(id := None)
    ensures Keys(r.active) == Keys(reg.active) && r.archive == reg.archive
    ensures AgreeExcept(reg.active, r.active, {name})
    ensures reg.Valid() ==> r.Valid()
  {
    if !Has(reg.active, name) then reg
    else
      PutAgree(reg.active, name, Get(reg.active, name).(id := None));
      PutKeepsValid(reg.active, name, Get(reg.active, name).(id := None));
      reg.(active := Put(reg.active, name, Get(reg.active, name).(id := None)))
  }

  /** `forget_window` (with `archive_window`): move the entry, fields verbatim,
      into the archive stamped with `now`; an absent name changes nothing. */
  function Forget(reg: Registry, name: string, now: real): (r: Registry)
    ensures !Has(reg.active, name) ==> r == reg
    ensures Has(reg.active, name) ==>
      && !Has(r.active, name)
      && Has(r.archive, name) && Get(r.archive, name) == Archived(Get(reg.active, name), now)
      && Keys(r.active) == Without(Keys(reg.active), name)
      && Keys(r.archive) == Placed(Keys(reg.archive), name)
    ensures AgreeExcept(reg.active, r.active, {name})
    ensures AgreeExcept(reg.archive, r.archive, {name})
    ensures reg.Valid() ==> r.Valid()
  {
    if !Has(reg.active, name) then reg
    else
      var gone := Archived(Get(reg.active, name), now);
      DelKeepsValid(reg.active, name);
      DelAgree(reg.active, name);
      PutAgree(reg.archive, name, gone);
      PutKeepsValid(reg.archive, name, gone);
      assert Keys(Del(reg.active, name)) == Without(Keys(reg.active), name) by {
        DelKeys(reg.active, name);
      }
      assert Keys(Put(reg.archive, name, gone)) == Placed(Keys(reg.archive), name) by {
        PutKeys(reg.archive, name, gone);
      }
      Registry(Del(reg.active, name), Put(reg.archive, name, gone))
  }

  /** The archive after `archive_window` of every item of `items`, in order. */
  function ArchiveAll(archive: Dict<Archived>, items: Dict<Entry>, now: real): (r: Dict<Archived>)
    requires Dicts.Valid(items)
    ensures forall k :: Has(r, k) <==> Has(archive, k) || Has(items, k)
    ensures forall k | Has(items, k) :: Get(r, k) == Archived(Get(items, k), now)
    ensures forall k | !Has(items, k) && Has(archive, k) :: Get(r, k) == Get(archive, k)
    ensures Dicts.Valid(archive) ==> Dicts.Valid(r)
    decreases |items|
  {
    if items == [] then archive
    else
      PutAgree(archive, items[0].0, Archived(items[0].1, now));
      PutKeepsValid(archive, items[0].0, Archived(items[0].1, now));
      ArchiveAll(Put(archive, items[0].0, Archived(items[0].1, now)), items[1..], now)
  }

  /** `forget_all_windows`: every active entry is archived, the active map emptied. */
  function ForgetAll(reg: Registry, now: real): (r: Registry)
    requires Dicts.Valid(reg.active)
    ensures r.active == []
    ensures forall k :: Has(r.archive, k) <==> Has(reg.archive, k) || Has(reg.active, k)
    ensures forall k | Has(reg.active, k) :: Get(r.archive, k) == Archived(Get(reg.active, k), now)
    ensures forall k | !Has(reg.active, k) && Has(reg.archive, k) :: Get(r.archive, k) == Get(reg.archive, k)
    ensures reg.Valid() ==> r.Valid()
  {
    Registry([], ArchiveAll(reg.archive, reg.active, now))
  }

  /** `recall_purge`: delete from the archive only. */
  function Purge(reg: Registry, name: string): (r: Registry)
    ensures r.active == reg.active
    ensures !Has(r.archive, name)
    ensures !Has(reg.archive, name) ==> r == reg
    ensures forall k | Has(r.archive, k) :: Has(reg.archive, k) && Get(r.archive, k) == Get(reg.archive, k)
    ensures AgreeExcept(reg.archive, r.archive, {name})
    ensures Keys(r.archive) == Without(Keys(reg.archive), name)
    ensures reg.Valid() ==> r.Valid()
  {
    if !Has(reg.archive, name) then
      assert Without(Keys(reg.archive), name) == Keys(reg.archive) by {
        DelKeys(reg.archive, name);
      }
      reg
    else
      DelKeepsValid(reg.archive, name);
      assert Keys(Del(reg.archive, name)) == Without(Keys(reg.archive), name) by {
        DelKeys(reg.archive, name);
      }
      reg.(archive := Del(reg.archive, name))
  }

  // ---------------------------------------------------------------------------
  // recall_combine

  /** Append each of `more` not yet present and not `primary`, in order. */
  function AppendNew(acc: seq<string>, more: seq<string>, primary: string): (r: seq<string>)
    ensures |acc| <= |r| && r[..|acc|] == acc
    ensures forall x :: x in r <==> x in acc || (x in more && x != primary)
    ensures Distinct(acc) ==> Distinct(r)
    decreases |more|
  {
    if more == [] then acc
    else
      var a := more[0];
      var acc' := if a !in acc && a != primary then acc + [a] else acc;
      assert forall x :: x in more <==> x == a || x in more[1..];
      var r := AppendNew(acc', more[1..], primary);
      assert r[..|acc|] == r[..|acc'|][..|acc|];
      r
  }

  /** What `AppendNew` adds after `acc`: names of `more` in the order of their
      first occurrences, none twice, none already in `acc` and never `primary`. */
  lemma {:induction false} AppendNewTail(acc: seq<string>, more: seq<string>, primary: string)
    ensures var t := AppendNew(acc, more, primary)[|acc|..];
            && Subseq(t, more)
            && Distinct(t)
            && (forall x | x in t :: x !in acc && x != primary)
            && FirstOccurrenceOrder(t, more)
    decreases |more|
  {
    if more != [] {
      var a := more[0];
      assert more == [a] + more[1..];
      if a !in acc && a != primary {
        var acc' := acc + [a];
        AppendNewTail(acc', more[1..], primary);
        var r := AppendNew(acc', more[1..], primary);
        assert AppendNew(acc, more, primary) == r;
        AppendedTail(r, acc, a);
        DistinctCons(a, r[|acc'|..]);
        FirstOccurrenceCons(a, r[|acc'|..], more[1..]);
      } else {
        AppendNewTail(acc, more[1..], primary);
        var r := AppendNew(acc, more[1..], primary);
        assert AppendNew(acc, more, primary) == r;
        FirstOccurrenceCons(a, r[|acc|..], more[1..]);
      }
    }
  }

  /** The part of `r` after `acc`, when `r` starts with `acc + [a]`. */
  lemma AppendedTail(r: seq<string>, acc: seq<string>, a: string)
    requires |acc| < |r| && r[..|acc| + 1] == acc + [a]
    ensures r[|acc|..] == [a] + r[|acc| + 1..]
  {
    assert r[|acc|] == (acc + [a])[|acc|];
  }

  /** The primary's alias list after combining: its old aliases, then the
      secondary's name if new, then the secondary's new aliases other than the
      primary's own name. */
  function CombinedAliases(primaryAliases: seq<string>, secondary: string, secondaryAliases: seq<string>, primary: string): (r: seq<string>)
    requires secondary != primary
    ensures |primaryAliases| <= |r| && r[..|primaryAliases|] == primaryAliases
    ensures forall x :: x in r <==> x in primaryAliases || x == secondary || (x in secondaryAliases && x != primary)
    ensures Distinct(primaryAliases) ==> Distinct(r)
  {
    var acc := AppendIfAbsent(primaryAliases, secondary);
    var r := AppendNew(acc, secondaryAliases, primary);
    assert r[..|primaryAliases|] == r[..|acc|][..|primaryAliases|];
    r
  }

  /** What combining adds after the primary's aliases: the secondary's name
      first when it is new, then names from the secondary's aliases, in the
      order of their first occurrences, none twice and none the primary
      already had. */
  lemma CombinedAliasesTail(primaryAliases: seq<string>, secondary: string, secondaryAliases: seq<string>, primary: string)
    requires secondary != primary
    ensures var r := CombinedAliases(primaryAliases, secondary, secondaryAliases, primary);
            var t := r[|primaryAliases|..];
            && (secondary !in primaryAliases ==> |t| > 0 && t[0] == secondary)
            && Subseq(t, [secondary] + secondaryAliases)
            && Distinct(t)
            && forall x | x in t :: x !in primaryAliases
    ensures var r := CombinedAliases(primaryAliases, secondary, secondaryAliases, primary);
            var t := r[|primaryAliases|..];
            FirstOccurrenceOrder(t, [secondary] + secondaryAliases)
  {
    var acc := AppendIfAbsent(primaryAliases, secondary);
    var r := AppendNew(acc, secondaryAliases, primary);
    assert CombinedAliases(primaryAliases, secondary, secondaryAliases, primary) == r;
    AppendNewTail(acc, secondaryAliases, primary);
    assert ([secondary] + secondaryAliases)[1..] == secondaryAliases;
    if secondary !in primaryAliases {
      AppendedTail(r, primaryAliases, secondary);
      DistinctCons(secondary, r[|acc|..]);
      FirstOccurrenceCons(secondary, r[|acc|..], secondaryAliases);
    } else {
      assert acc == primaryAliases;
      FirstOccurrenceCons(secondary, r[|acc|..], secondaryAliases);
    }
  }

  /** The combined list is fully determined: the primary's aliases followed by
      the only repeat-free sequence holding exactly the secondary's name and
      aliases that are neither already there nor the primary's name, in the
      order they first occur in the secondary's name-then-aliases. */
  lemma CombinedAliasesDetermined(primaryAliases: seq<string>, secondary: string, secondaryAliases: seq<string>, primary: string, tail: seq<string>)
    requires secondary != primary
    requires Distinct(tail) && FirstOccurrenceOrder(tail, [secondary] + secondaryAliases)
    requires forall x :: x in tail <==> (x == secondary || x in secondaryAliases) && x !in primaryAliases && x != primary
    ensures CombinedAliases(primaryAliases, secondary, secondaryAliases, primary) == primaryAliases + tail
  {
    var r := CombinedAliases(primaryAliases, secondary, secondaryAliases, primary);
    var t := r[|primaryAliases|..];
    var src := [secondary] + secondaryAliases;
    assert Distinct(t) && FirstOccurrenceOrder(t, src) by {
      CombinedAliasesTail(primaryAliases, secondary, secondaryAliases, primary);
    }
    assert forall x :: x in t <==> x in tail by {
      CombinedAliasesTailMembers(primaryAliases, secondary, secondaryAliases, primary);
    }
    FirstOccurrenceUnique(t, tail, src);
    assert r == primaryAliases + t;
  }

  /** A repeated alias of the secondary is added once, where it first occurs. */
  lemma CombinedAliasesRepeat()
    ensures CombinedAliases([], "s", ["x", "y", "x"], "p") == ["s", "x", "y"]
  {
    var src: seq<string> := ["s", "x", "y", "x"];
    var t: seq<string> := ["s", "x", "y"];
    assert src == ["s"] + ["x", "y", "x"];
    assert Distinct(t) && FirstOccurrenceOrder(t, src) by {
      assert FirstIndexOf(src, "s") == 0 && FirstIndexOf(src, "x") == 1 && FirstIndexOf(src, "y") == 2;
    }
    assert forall x :: x in t <==> (x == "s" || x in ["x", "y", "x"]) && x !in [] && x != "p";
    CombinedAliasesDetermined([], "s", ["x", "y", "x"], "p", t);
  }

  /** The names combining adds: the secondary's name and aliases that the
      primary had neither as an alias nor as its name. */
  lemma CombinedAliasesTailMembers(primaryAliases: seq<string>, secondary: string, secondaryAliases: seq<string>, primary: string)
    requires secondary != primary
    ensures var t := CombinedAliases(primaryAliases, secondary, secondaryAliases, primary)[|primaryAliases|..];
            forall x :: x in t <==> (x == secondary || x in secondaryAliases) && x !in primaryAliases && x != primary
  {
    var r := CombinedAliases(primaryAliases, secondary, secondaryAliases, primary);
    var t := r[|primaryAliases|..];
    assert r == primaryAliases + t;
    forall x ensures x in t <==> (x == secondary || x in secondaryAliases) && x !in primaryAliases && x != primary {
      if x in t {
        CombinedAliasesTail(primaryAliases, secondary, secondaryAliases, primary);
        assert x in r && x !in primaryAliases;
      }
    }
  }

  /** `recall_combine(primary, secondary)`. */
  function Combine(reg: Registry, primary: string, secondary: string): (r: Registry)
    ensures !Has(reg.active, primary) || !Has(reg.active, secondary) || primary == secondary ==> r == reg
    ensures Has(reg.active, primary) && Has(reg.active, secondary) && primary != secondary ==>
      var p := Get(reg.active, primary);
      var s := Get(reg.active, secondary);
      && !Has(r.active, secondary)
      && Has(r.active, primary)
      && Get(r.active, primary) == p.(
           aliases := CombinedAliases(p.aliases, secondary, s.aliases, primary),
           path := if !Truthy(p.path) && Truthy(s.path) then s.path else p.path)
      && AgreeExcept(reg.active, r.active, {primary, secondary})
      && Keys(r.active) == Without(Keys(reg.active), secondary)
    ensures r.archive == reg.archive
    ensures reg.Valid() ==> r.Valid()
  {
    if !Has(reg.active, primary) || !Has(reg.active, secondary) || primary == secondary then reg
    else
      var p := Get(reg.active, primary);
      var s := Get(reg.active, secondary);
      var merged := p.(
        aliases := CombinedAliases(p.aliases, secondary, s.aliases, primary),
        path := if !Truthy(p.path) && Truthy(s.path) then s.path else p.path);
      var put := Put(reg.active, primary, merged);
      PutAgree(reg.active, primary, merged);
      DelAgree(put, secondary);
      AgreeExceptTrans(reg.active, put, Del(put, secondary), {primary}, {secondary});
      PutKeepsValid(reg.active, primary, merged);
      DelKeepsValid(put, secondary);
      assert Keys(Del(put, secondary)) == Without(Keys(reg.active), secondary) by {
        PutKeys(reg.active, primary, merged);
        DelKeys(put, secondary);
      }
      reg.(active := Del(put, secondary))
  }

  /** The primary ends up answering to everything the secondary answered to
      (its name and aliases), except its own name, and loses none of its own. */
  lemma CombineKeepsAllNames(reg: Registry, primary: string, secondary: string)
    requires Has(reg.active, primary) && Has(reg.active, secondary) && primary != secondary
    ensures var merged := Get(Combine(reg, primary, secondary).active, primary).aliases;
            && secondary in merged
            && (forall a | a in Get(reg.active, primary).aliases :: a in merged)
            && (forall a | a in Get(reg.active, secondary).aliases && a != primary :: a in merged)
  {
  }

  // ---------------------------------------------------------------------------
  // recall_promote

  /** Some alias equals `spoken` once lower-cased. */
  predicate HasVariant(aliases: seq<string>, spoken: string) {
    exists a | a in aliases :: Lower(a) == spoken
  }

  /** `aliases` without the ones equal to `spoken` once lower-cased, order kept. */
  function RemoveVariants(aliases: seq<string>, spoken: string): (r: seq<string>)
    ensures forall a :: a in r <==> a in aliases && Lower(a) != spoken
    ensures !HasVariant(r, spoken)
    ensures |r| <= |aliases|
    ensures Distinct(aliases) ==> Distinct(r)
  {
    if aliases == [] then []
    else
      assert forall a :: a in aliases <==> a == aliases[0] || a in aliases[1..];
      (if Lower(aliases[0]) != spoken then [aliases[0]] else []) + RemoveVariants(aliases[1..], spoken)
  }

  /** Removing the variants of `spoken` keeps the other aliases in their order. */
  lemma {:induction false} RemoveVariantsKeepsOrder(aliases: seq<string>, spoken: string)
    ensures Subseq(RemoveVariants(aliases, spoken), aliases)
  {
    if aliases != [] {
      RemoveVariantsKeepsOrder(aliases[1..], spoken);
      var rest := RemoveVariants(aliases[1..], spoken);
      if Lower(aliases[0]) != spoken {
        assert ([aliases[0]] + rest)[1..] == rest;
      } else {
        assert RemoveVariants(aliases, spoken) == rest;
      }
    }
  }

  /** Removing the variants of `spoken` deletes every occurrence of them and
      keeps every other alias as often as it occurred. */
  lemma {:induction false} RemoveVariantsCounts(aliases: seq<string>, spoken: string)
    ensures forall a ::
      multiset(RemoveVariants(aliases, spoken))[a] == (if Lower(a) != spoken then multiset(aliases)[a] else 0)
  {
    if aliases != [] {
      RemoveVariantsCounts(aliases[1..], spoken);
      var x := aliases[0];
      var rest := RemoveVariants(aliases[1..], spoken);
      var head: seq<string> := if Lower(x) != spoken then [x] else [];
      assert aliases == [x] + aliases[1..];
      assert multiset(aliases) == multiset([x]) + multiset(aliases[1..]);
      assert RemoveVariants(aliases, spoken) == head + rest;
      assert multiset(head + rest) == multiset(head) + multiset(rest);
    }
  }

  /** What the promote scan stops at: a canonical name or an alias matching `spoken`. */
  predicate StopsPromoteScan(spoken: string, name: string, e: Entry) {
    Lower(name) == spoken || HasVariant(e.aliases, spoken)
  }

  /** Entry `i` is the one `recall_promote` re-keys: the scan stops there, at an
      alias rather than at the canonical name. */
  ghost predicate PromotionOwner(active: Dict<Entry>, spoken: string, i: int) {
    && 0 <= i < |active|
    && Lower(active[i].0) != spoken
    && HasVariant(active[i].1.aliases, spoken)
    && forall j | 0 <= j < i :: !StopsPromoteScan(spoken, active[j].0, active[j].1)
  }

  /** The promote scan: the first entry whose name or one of whose aliases matches. */
  function PromoteScan(active: Dict<Entry>, spoken: string): (r: Option<nat>)
    ensures r.Some? ==> r.value < |active| && StopsPromoteScan(spoken, active[r.value].0, active[r.value].1)
    ensures r.Some? ==> forall j | 0 <= j < r.value :: !StopsPromoteScan(spoken, active[j].0, active[j].1)
    ensures r.None? ==> forall j | 0 <= j < |active| :: !StopsPromoteScan(spoken, active[j].0, active[j].1)
  {
    FirstIndex(active, (name: string, e: Entry) => StopsPromoteScan(spoken, name, e))
  }

  /** `recall_promote` once the spoken form `spoken` of `spokenName` is known. */
  function PromoteSpoken(reg: Registry, spoken: string, spokenName: string): (r: Registry)
    ensures r.archive == reg.archive
    ensures (forall i :: !PromotionOwner(reg.active, spoken, i)) ==> r == reg
    ensures forall i | PromotionOwner(reg.active, spoken, i) ::
        var canonical := reg.active[i].0;
        var e := reg.active[i].1;
        && Has(r.active, spokenName)
        && Get(r.active, spokenName) == e.(aliases := RemoveVariants(e.aliases, spoken) + [canonical])
        && (canonical != spokenName ==> !Has(r.active, canonical))
        && AgreeExcept(reg.active, r.active, {canonical, spokenName})
    ensures reg.Valid() ==> r.Valid()
  {
    match PromoteScan(reg.active, spoken)
    case None => reg
    case Some(i) =>
      var canonical := reg.active[i].0;
      var e := reg.active[i].1;
      if Lower(canonical) == spoken then
        assert forall i' :: !PromotionOwner(reg.active, spoken, i');
        reg
      else
        assert PromotionOwner(reg.active, spoken, i);
        assert forall i' | PromotionOwner(reg.active, spoken, i') :: i' == i;
        var promoted := e.(aliases := RemoveVariants(e.aliases, spoken) + [canonical]);
        var del := Del(reg.active, canonical);
        DelAgree(reg.active, canonical);
        PutAgree(del, spokenName, promoted);
        AgreeExceptTrans(reg.active, del, Put(del, spokenName, promoted), {canonical}, {spokenName});
        DelKeepsValid(reg.active, canonical);
        PutKeepsValid(del, spokenName, promoted);
        reg.(active := Put(del, spokenName, promoted))
  }

  /** `recall_promote(spokenName)`: the entry found through one of its aliases
      is re-keyed under the spoken name, its old name becoming an alias and the
      matching alias variants going. */
  function Promote(reg: Registry, forbidden: map<string, string>, spokenName: string): (r: Registry)
    ensures IsForbidden(forbidden, spokenName) ==> r == reg
    ensures r.archive == reg.archive
    ensures (forall i :: !PromotionOwner(reg.active, Strip(Lower(spokenName)), i)) ==> r == reg
    ensures !IsForbidden(forbidden, spokenName) ==>
      forall i | PromotionOwner(reg.active, Strip(Lower(spokenName)), i) ::
        var canonical := reg.active[i].0;
        var e := reg.active[i].1;
        && Has(r.active, spokenName)
        && Get(r.active, spokenName) == e.(aliases := RemoveVariants(e.aliases, Strip(Lower(spokenName))) + [canonical])
        && (canonical != spokenName ==> !Has(r.active, canonical))
        && AgreeExcept(reg.active, r.active, {canonical, spokenName})
    ensures reg.Valid() ==> r.Valid()
  {
    if IsForbidden(forbidden, spokenName) then reg
    else PromoteSpoken(reg, Strip(Lower(spokenName)), spokenName)
  }

  /** Where the promoted entry lands: the owner's name leaves the key order and
      the spoken name takes the last slot, unless it was already a key, in
      which case it keeps its slot; every other key keeps its place. */
  lemma PromoteSpokenOrder(reg: Registry, spoken: string, spokenName: string, i: int)
    requires PromotionOwner(reg.active, spoken, i)
    ensures Keys(PromoteSpoken(reg, spoken, spokenName).active) == Placed(Without(Keys(reg.active), reg.active[i].0), spokenName)
  {
    var scan := PromoteScan(reg.active, spoken);
    assert StopsPromoteScan(spoken, reg.active[i].0, reg.active[i].1);
    assert scan == Some(i);
    var canonical := reg.active[i].0;
    var e := reg.active[i].1;
    var promoted := e.(aliases := RemoveVariants(e.aliases, spoken) + [canonical]);
    assert PromoteSpoken(reg, spoken, spokenName).active == Put(Del(reg.active, canonical), spokenName, promoted);
    DelKeys(reg.active, canonical);
    PutKeys(Del(reg.active, canonical), spokenName, promoted);
  }

  lemma PromoteOrder(reg: Registry, forbidden: map<string, string>, spokenName: string, i: int)
    requires !IsForbidden(forbidden, spokenName)
    requires PromotionOwner(reg.active, Strip(Lower(spokenName)), i)
    ensures Keys(Promote(reg, forbidden, spokenName).active) == Placed(Without(Keys(reg.active), reg.active[i].0), spokenName)
  {
    PromoteSpokenOrder(reg, Strip(Lower(spokenName)), spokenName, i);
  }

  /** Promoting keeps an entry's aliases free of repeats, unless its old name
      was already one of its own aliases (which nothing prevents). */
  lemma PromotedAliasesDistinct(aliases: seq<string>, canonical: string, spoken: string)
    requires Distinct(aliases) && canonical !in aliases
    ensures Distinct(RemoveVariants(aliases, spoken) + [canonical])
  {
  }

  /** An entry that lists its own name as an alias ends up with that name
      twice after a promote: "a" aliased ["a", "ed"] becomes "ed" aliased ["a", "a"]. */
  lemma PromoteMayRepeatAlias()
    ensures var e := Entry(None, "kitty", "", None, ["a", "ed"], None, false);
            var r := Promote(Registry([("a", e)], []), map[], "ed");
            Has(r.active, "ed") && Get(r.active, "ed").aliases == ["a", "a"]
  {
    var e := Entry(None, "kitty", "", None, ["a", "ed"], None, false);
    var reg := Registry([("a", e)], []);
    assert Lower("ed") == "ed" && Lower("a") == "a";
    assert Strip("ed") == "ed";
    assert e.aliases[1] == "ed";
    assert PromotionOwner(reg.active, "ed", 0);
    assert RemoveVariants(["ed"], "ed") == [];
    assert RemoveVariants(e.aliases, "ed") == ["a"] + RemoveVariants(["ed"], "ed");
    assert PromoteScan(reg.active, "ed") == Some(0);
    var promoted := e.(aliases := ["a", "a"]);
    assert RemoveVariants(e.aliases, "ed") + [reg.active[0].0] == ["a", "a"];
    var r := PromoteSpoken(reg, "ed", "ed");
    assert r == reg.(active := Put(Del(reg.active, "a"), "ed", promoted));
    assert Del(reg.active, "a") == [];
    assert Has(r.active, "ed") && Get(r.active, "ed").aliases == ["a", "a"];
    assert Promote(reg, map[], "ed") == r;
  }

  /** The scan stops at the first entry holding the spoken name as an alias,
      so an entry already stored under that name further down is never
      looked at, and the re-keyed entry replaces it. */
  lemma PromoteOverwritesLaterName()
    ensures var a := Entry(None, "kitty", "", None, ["ed"], None, false);
            var b := Entry(None, "foot", "", None, [], None, false);
            var reg := Registry([("a", a), ("ed", b)], []);
            var r := Promote(reg, map[], "ed");
            && reg.Valid()
            && Keys(r.active) == ["ed"]
            && Get(r.active, "ed") == a.(aliases := ["a"])
  {
    var a := Entry(None, "kitty", "", None, ["ed"], None, false);
    var b := Entry(None, "foot", "", None, [], None, false);
    var reg := Registry([("a", a), ("ed", b)], []);
    assert Lower("ed") == "ed" && Lower("a") == "a";
    assert Strip("ed") == "ed";
    assert a.aliases[0] == "ed";
    assert PromotionOwner(reg.active, "ed", 0);
    assert PromoteScan(reg.active, "ed") == Some(0);
    assert RemoveVariants(["ed"], "ed") == [];
    var promoted := a.(aliases := ["a"]);
    assert RemoveVariants(a.aliases, "ed") + [reg.active[0].0] == ["a"];
    var del := Del(reg.active, "a");
    assert reg.active[1..] == [("ed", b)];
    assert !Has([("ed", b)], "a");
    assert Del([("ed", b)], "a") == [("ed", b)];
    assert del == [("ed", b)];
    var r := PromoteSpoken(reg, "ed", "ed");
    assert r == reg.(active := Put(del, "ed", promoted));
    assert Has(del, "ed") && Keys(del) == ["ed"];
    assert Promote(reg, map[], "ed") == r;
    assert Keys(r.active) == ["ed"];
    assert Get(r.active, "ed") == promoted;
    assert [("ed", b)][1..] == [];
    assert Valid([("ed", b)]);
    assert reg.Valid();
  }

  /** An entry whose name already is `spokenName`, or is it once lower-cased
      and trimmed: `recall_promote`'s "already canonical" test. */
  predicate AlreadyNamed(active: Dict<Entry>, spokenName: string) {
    exists j | 0 <= j < |active| :: active[j].0 == spokenName || Lower(active[j].0) == Strip(Lower(spokenName))
  }

  /** `recall_promote` with its "already canonical, nothing to do" test applied
      to every entry rather than only to those before the alias owner. */
  function PromoteGuarded(reg: Registry, forbidden: map<string, string>, spokenName: string): (r: Registry)
    ensures IsForbidden(forbidden, spokenName) || AlreadyNamed(reg.active, spokenName) ==> r == reg
    ensures !AlreadyNamed(reg.active, spokenName) ==> r == Promote(reg, forbidden, spokenName)
    ensures r.archive == reg.archive
    ensures reg.Valid() ==> r.Valid()
  {
    if IsForbidden(forbidden, spokenName) || AlreadyNamed(reg.active, spokenName) then reg
    else Promote(reg, forbidden, spokenName)
  }

  /** A guarded promotion loses no entry: every entry other than the one it
      re-keys is still there, unchanged. */
  lemma PromoteGuardedKeepsOthers(reg: Registry, forbidden: map<string, string>, spokenName: string, k: string)
    requires Has(reg.active, k)
    requires forall i | PromotionOwner(reg.active, Strip(Lower(spokenName)), i) :: reg.active[i].0 != k
    ensures Has(PromoteGuarded(reg, forbidden, spokenName).active, k)
    ensures Get(PromoteGuarded(reg, forbidden, spokenName).active, k) == Get(reg.active, k)
  {
    if !IsForbidden(forbidden, spokenName) && !AlreadyNamed(reg.active, spokenName) {
      var spoken := Strip(Lower(spokenName));
      assert PromoteGuarded(reg, forbidden, spokenName) == PromoteSpoken(reg, spoken, spokenName);
      HasKeys(reg.active, k);
      var j :| 0 <= j < |reg.active| && Keys(reg.active)[j] == k;
      assert k != spokenName;
      PromoteSpokenKeeps(reg, spoken, spokenName, k);
    }
  }

  lemma PromoteSpokenKeeps(reg: Registry, spoken: string, spokenName: string, k: string)
    requires Has(reg.active, k) && k != spokenName
    requires forall i | PromotionOwner(reg.active, spoken, i) :: reg.active[i].0 != k
    ensures AgreeOn(reg.active, PromoteSpoken(reg, spoken, spokenName).active, k)
  {
    var r := PromoteSpoken(reg, spoken, spokenName);
    if i :| PromotionOwner(reg.active, spoken, i) {
      assert AgreeExcept(reg.active, r.active, {reg.active[i].0, spokenName});
    }
  }

  /** At most one entry owns a variant of `spoken` among its aliases. */
  ghost predicate UniqueVariantOwner(active: Dict<Entry>, spoken: string) {
    forall i, j | 0 <= i < j < |active| :: !(HasVariant(active[i].1.aliases, spoken) && HasVariant(active[j].1.aliases, spoken))
  }

  lemma {:induction false} PutItems<V>(d: Dict<V>, k: string, v: V, p: (string, V))
    requires p in Put(d, k, v)
    ensures p in d || p == (k, v)
  {
    if d != [] && d[0].0 != k {
      var t := Put(d[1..], k, v);
      assert Put(d, k, v) == [d[0]] + t;
      if p != d[0] {
        PutItems(d[1..], k, v, p);
      }
    }
  }

  lemma {:induction false} DelItems<V>(d: Dict<V>, k: string, p: (string, V))
    requires p in Del(d, k)
    ensures p in d && p.0 != k
  {
    if d != [] {
      if d[0].0 == k {
        DelItems(d[1..], k, p);
      } else if p != d[0] {
        assert Del(d, k) == [d[0]] + Del(d[1..], k);
        DelItems(d[1..], k, p);
      }
    }
  }

  /** Promoting twice is promoting once, as long as no other entry also owns
      the alias. (Aliases are not kept unique across entries: with two owners
      the second call promotes the other one.) */
  lemma PromoteIdempotent(reg: Registry, forbidden: map<string, string>, spokenName: string)
    requires UniqueVariantOwner(reg.active, Strip(Lower(spokenName)))
    ensures var r1 := Promote(reg, forbidden, spokenName);
            Promote(r1, forbidden, spokenName) == r1
  {
    var spoken := Strip(Lower(spokenName));
    var r1 := Promote(reg, forbidden, spokenName);
    if r1 != reg {
      assert r1 == PromoteSpoken(reg, spoken, spokenName);
      assert PromoteScan(reg.active, spoken).Some?;
      var i := PromoteScan(reg.active, spoken).value;
      var canonical := reg.active[i].0;
      var e := reg.active[i].1;
      assert Lower(canonical) != spoken;
      var promoted := e.(aliases := RemoveVariants(e.aliases, spoken) + [canonical]);
      assert r1.active == Put(Del(reg.active, canonical), spokenName, promoted);
      NoVariantLeft(reg.active, i, spoken, spokenName, r1.active);
      assert forall k :: !PromotionOwner(r1.active, spoken, k);
    }
  }

  /** With a single owner of the spoken form, re-keying that owner leaves no
      entry holding a variant of it. */
  lemma NoVariantLeft(active: Dict<Entry>, i: nat, spoken: string, spokenName: string, rest: Dict<Entry>)
    requires i < |active| && Lower(active[i].0) != spoken && HasVariant(active[i].1.aliases, spoken)
    requires UniqueVariantOwner(active, spoken)
    requires var e := active[i].1;
             rest == Put(Del(active, active[i].0), spokenName, e.(aliases := RemoveVariants(e.aliases, spoken) + [active[i].0]))
    ensures forall j | 0 <= j < |rest| :: !HasVariant(rest[j].1.aliases, spoken)
  {
    var canonical := active[i].0;
    var e := active[i].1;
    var promoted := e.(aliases := RemoveVariants(e.aliases, spoken) + [canonical]);
    forall j | 0 <= j < |rest| ensures !HasVariant(rest[j].1.aliases, spoken) {
      var p := rest[j];
      PutItems(Del(active, canonical), spokenName, promoted, p);
      if p != (spokenName, promoted) {
        DelItems(active, canonical, p);
        var m :| 0 <= m < |active| && active[m] == p;
        assert m != i;
      } else {
        assert !HasVariant(RemoveVariants(e.aliases, spoken), spoken);
        assert promoted.aliases == RemoveVariants(e.aliases, spoken) + [canonical];
      }
    }
  }

  /** Without unique ownership a repeated promote is not a no-op: with two
      entries aliased "ed", the second call re-keys the other owner onto "ed",
      overwriting the entry the first call promoted. */
  lemma PromoteTwiceMayDiffer()
    ensures var e := Entry(None, "kitty", "", None, ["ed"], None, false);
            var reg := Registry([("a", e), ("b", e)], []);
            var r1 := Promote(reg, map[], "ed");
            Promote(r1, map[], "ed") != r1
  {
    var e := Entry(None, "kitty", "", None, ["ed"], None, false);
    var reg := Registry([("a", e), ("b", e)], []);
    assert Lower("ed") == "ed" && Lower("a") == "a" && Lower("b") == "b";
    assert Strip("ed") == "ed";
    assert e.aliases[0] == "ed";
    assert PromotionOwner(reg.active, "ed", 0);
    assert RemoveVariants(["ed"], "ed") == [];
    var promoted := e.(aliases := ["a"]);
    assert PromoteScan(reg.active, "ed") == Some(0);
    var r1 := PromoteSpoken(reg, "ed", "ed");
    assert Del(reg.active, "a") == [("b", e)];
    assert !Has([("b", e)], "ed");
    assert Put([("b", e)], "ed", promoted) == [("b", e), ("ed", promoted)];
    assert RemoveVariants(e.aliases, "ed") + [reg.active[0].0] == ["a"];
    assert r1 == reg.(active := Put(Del(reg.active, "a"), "ed", promoted));
    assert r1.active == [("b", e), ("ed", promoted)];
    assert Promote(reg, map[], "ed") == r1;
    assert PromotionOwner(r1.active, "ed", 0);
    var r2 := PromoteSpoken(r1, "ed", "ed");
    assert !Has(r2.active, "b");
    assert Promote(r1, map[], "ed") == r2;
  }

  // ---------------------------------------------------------------------------
  // recall_rename, add_recall_alias, remove_recall_alias

  /** `recall_rename(name, newName)`: the same record re-keyed, overwriting
      whatever was under `newName`. */
  function Rename(reg: Registry, forbidden: map<string, string>, name: string, newName: string): (r: Registry)
    ensures IsForbidden(forbidden, newName) || !Has(reg.active, name) ==> r == reg
    ensures !IsForbidden(forbidden, newName) && Has(reg.active, name) ==>
      && Has(r.active, newName) && Get(r.active, newName) == Get(reg.active, name)
      && (name != newName ==> !Has(r.active, name))
      && AgreeExcept(reg.active, r.active, {name, newName})
    ensures r.archive == reg.archive
    ensures reg.Valid() ==> r.Valid()
  {
    if IsForbidden(forbidden, newName) || !Has(reg.active, name) then reg
    else
      var del := Del(reg.active, name);
      var e := Get(reg.active, name);
      DelKeepsValid(reg.active, name);
      PutAgree(del, newName, e);
      PutKeepsValid(del, newName, e);
      reg.(active := Put(del, newName, e))
  }

  /** A rename takes the old name out of the key order and puts the new one
      last, or leaves it in its slot when it was already a key. */
  lemma RenameOrder(reg: Registry, forbidden: map<string, string>, name: string, newName: string)
    requires !IsForbidden(forbidden, newName) && Has(reg.active, name)
    ensures Keys(Rename(reg, forbidden, name, newName).active) == Placed(Without(Keys(reg.active), name), newName)
  {
    DelKeys(reg.active, name);
    PutKeys(Del(reg.active, name), newName, Get(reg.active, name));
  }

  /** `add_recall_alias(name, alias)`: append the alias unless already there. */
  function AddAlias(reg: Registry, forbidden: map<string, string>, name: string, alias: string): (r: Registry)
    ensures IsForbidden(forbidden, alias) || !Has(reg.active, name) ==> r == reg
    ensures !IsForbidden(forbidden, alias) && Has(reg.active, name) ==>
      && Has(r.active, name)
      && Get(r.active, name) == Get(reg.active, name).(aliases := AppendIfAbsent(Get(reg.active, name).aliases, alias))
      && Keys(r.active) == Keys(reg.active)
      && AgreeExcept(reg.active, r.active, {name})
    ensures r.archive == reg.archive
    ensures reg.Valid() ==> r.Valid()
  {
    if IsForbidden(forbidden, alias) || !Has(reg.active, name) then reg
    else
      var e := Get(reg.active, name);
      if alias in e.aliases then reg
      else
        PutAgree(reg.active, name, e.(aliases := e.aliases + [alias]));
        PutKeepsValid(reg.active, name, e.(aliases := e.aliases + [alias]));
        reg.(active := Put(reg.active, name, e.(aliases := e.aliases + [alias])))
  }

  /** Adding the same alias twice is adding it once. */
  lemma AddAliasIdempotent(reg: Registry, forbidden: map<string, string>, name: string, alias: string)
    ensures var r1 := AddAlias(reg, forbidden, name, alias);
            AddAlias(r1, forbidden, name, alias) == r1
  {
  }

  /** Nothing stops an entry from taking its own name as an alias. */
  lemma AddAliasMayAddOwnName(reg: Registry, forbidden: map<string, string>, name: string)
    requires Has(reg.active, name) && !IsForbidden(forbidden, name)
    ensures name in Get(AddAlias(reg, forbidden, name, name).active, name).aliases
  {
  }

  /** Entry `i` is the first with a variant of `spoken` among its aliases. */
  ghost predicate FirstVariantOwner(active: Dict<Entry>, spoken: string, i: int) {
    && 0 <= i < |active|
    && HasVariant(active[i].1.aliases, spoken)
    && forall j | 0 <= j < i :: !HasVariant(active[j].1.aliases, spoken)
  }

  /** `remove_recall_alias(alias)`: strip every case-variant from the first
      entry (in order) that has one; later owners keep theirs. */
  function RemoveAlias(reg: Registry, alias: string): (r: Registry)
    requires Dicts.Valid(reg.active)
    ensures r.archive == reg.archive && Keys(r.active) == Keys(reg.active)
    ensures (forall j | 0 <= j < |reg.active| :: !HasVariant(reg.active[j].1.aliases, Strip(Lower(alias)))) ==> r == reg
    ensures forall i | FirstVariantOwner(reg.active, Strip(Lower(alias)), i) ::
      var e := reg.active[i].1;
      && Has(r.active, reg.active[i].0)
      && Get(r.active, reg.active[i].0) == e.(aliases := RemoveVariants(e.aliases, Strip(Lower(alias))))
      && AgreeExcept(reg.active, r.active, {reg.active[i].0})
    ensures reg.Valid() ==> r.Valid()
  {
    var spoken := Strip(Lower(alias));
    match FirstIndex(reg.active, (name: string, e: Entry) => HasVariant(e.aliases, spoken))
    case None => reg
    case Some(i) =>
      var e := reg.active[i].1;
      GetAt(reg.active, i);
      PutAgree(reg.active, reg.active[i].0, e.(aliases := RemoveVariants(e.aliases, spoken)));
      assert forall i' | FirstVariantOwner(reg.active, spoken, i') :: i' == i;
      PutKeepsValid(reg.active, reg.active[i].0, e.(aliases := RemoveVariants(e.aliases, spoken)));
      reg.(active := Put(reg.active, reg.active[i].0, e.(aliases := RemoveVariants(e.aliases, spoken))))
  }

  // ---------------------------------------------------------------------------
  // recall_set_command, recall_clear_command, recall_auto_assign

  /** `recall_set_command`: store the command name as given. */
  function SetCommand(reg: Registry, name: string, command: string): (r: Registry)
    ensures !Has(reg.active, name) ==> r == reg
    ensures Has(reg.active, name) ==> Has(r.active, name) && Get(r.active, name) == Get(reg.active, name).(command := Some(command))
    ensures Keys(r.active) == Keys(reg.active) && r.archive == reg.archive
    ensures AgreeExcept(reg.active, r.active, {name})
    ensures reg.Valid() ==> r.Valid()
  {
    if !Has(reg.active, name) then reg
    else
      PutAgree(reg.active, name, Get(reg.active, name).(command := Some(command)));
      PutKeepsValid(reg.active, name, Get(reg.active, name).(command := Some(command)));
      reg.(active := Put(reg.active, name, Get(reg.active, name).(command := Some(command))))
  }

  /** `recall_clear_command`: drop the command. */
  function ClearCommand(reg: Registry, name: string): (r: Registry)
    ensures !Has(reg.active, name) ==> r == reg
    ensures Has(reg.active, name) ==> Has(r.active, name) && Get(r.active, name) == Get(reg.active, name).(command := None)
    ensures Keys(r.active) == Keys(reg.active) && r.archive == reg.archive
    ensures AgreeExcept(reg.active, r.active, {name})
    ensures reg.Valid() ==> r.Valid()
  {
    if !Has(reg.active, name) then reg
    else
      PutAgree(reg.active, name, Get(reg.active, name).(command := None));
      PutKeepsValid(reg.active, name, Get(reg.active, name).(command := None));
      reg.(active := Put(reg.active, name, Get(reg.active, name).(command := None)))
  }

  /** Clearing undoes setting when the entry had no command before. */
  lemma ClearUndoesSet(reg: Registry, name: string, command: string)
    requires Has(reg.active, name) && Get(reg.active, name).command.None?
    ensures ClearCommand(SetCommand(reg, name, command), name) == reg
  {
    var r1 := SetCommand(reg, name, command);
    assert Get(r1.active, name).(command := None) == Get(reg.active, name);
    PutPut(reg.active, name, Get(r1.active, name), Get(reg.active, name));
    PutSame(reg.active, name);
  }

  /** The second of two writes to one key is the one that stays. */
  lemma {:induction false} PutPut<V>(d: Dict<V>, k: string, v1: V, v2: V)
    requires Has(d, k)
    ensures Put(Put(d, k, v1), k, v2) == Put(d, k, v2)
  {
    if d[0].0 != k {
      PutPut(d[1..], k, v1, v2);
      assert Put(d, k, v1)[1..] == Put(d[1..], k, v1);
    }
  }

  /** `recall_auto_assign`: flip the flag. */
  function ToggleAutoAssign(reg: Registry, name: string): (r: Registry)
    ensures !Has(reg.active, name) ==> r == reg
    ensures Has(reg.active, name) ==> Has(r.active, name) && Get(r.active, name).autoAssign == !Get(reg.active, name).autoAssign
    ensures Has(reg.active, name) ==> Has(r.active, name) && Get(r.active, name).(autoAssign := Get(reg.active, name).autoAssign) == Get(reg.active, name)
    ensures Keys(r.active) == Keys(reg.active) && r.archive == reg.archive
    ensures AgreeExcept(reg.active, r.active, {name})
    ensures reg.Valid() ==> r.Valid()
  {
    if !Has(reg.active, name) then reg
    else
      var e := Get(reg.active, name);
      PutAgree(reg.active, name, e.(autoAssign := !e.autoAssign));
      PutKeepsValid(reg.active, name, e.(autoAssign := !e.autoAssign));
      reg.(active := Put(reg.active, name, e.(autoAssign := !e.autoAssign)))
  }

  /** Toggling twice restores the registry. */
  lemma ToggleTwice(reg: Registry, name: string)
    ensures ToggleAutoAssign(ToggleAutoAssign(reg, name), name) == reg
  {
    if Has(reg.active, name) {
      var r1 := ToggleAutoAssign(reg, name);
      PutPut(reg.active, name, Get(r1.active, name), Get(reg.active, name));
      PutSame(reg.active, name);
    }
  }

  // ---------------------------------------------------------------------------
  // Event hooks: cleanup_closed_windows, _on_title_change, _try_auto_assign

  /** Entry `i` is the first whose stored handle is `id`. */
  ghost predicate FirstWithId(active: Dict<Entry>, id: int, i: int) {
    && 0 <= i < |active|
    && active[i].1.id == Some(id)
    && forall j | 0 <= j < i :: active[j].1.id != Some(id)
  }

  /** `cleanup_closed_windows`: clear the handle of the first entry holding the
      closed window's id; other entries holding it too keep theirs. */
  function CleanupClosedWindows(reg: Registry, closedId: int): (r: Registry)
    requires Dicts.Valid(reg.active)
    ensures Keys(r.active) == Keys(reg.active) && r.archive == reg.archive
    ensures (forall j | 0 <= j < |reg.active| :: reg.active[j].1.id != Some(closedId)) ==> r == reg
    ensures forall i | FirstWithId(reg.active, closedId, i) ::
      && Has(r.active, reg.active[i].0)
      && Get(r.active, reg.active[i].0) == reg.active[i].1.(id := None)
      && AgreeExcept(reg.active, r.active, {reg.active[i].0})
    ensures reg.Valid() ==> r.Valid()
  {
    match FirstIndex(reg.active, (name: string, e: Entry) => e.id == Some(closedId))
    case None => reg
    case Some(i) =>
      GetAt(reg.active, i);
      PutAgree(reg.active, reg.active[i].0, reg.active[i].1.(id := None));
      assert forall i' | FirstWithId(reg.active, closedId, i') :: i' == i;
      PutKeepsValid(reg.active, reg.active[i].0, reg.active[i].1.(id := None));
      reg.(active := Put(reg.active, reg.active[i].0, reg.active[i].1.(id := None)))
  }

  /** `_on_title_change`: for the first entry holding the window's id, record
      the directory parsed from the new title (and the title) when it is a new,
      non-empty path; otherwise nothing changes. */
  function OnTitleChange(reg: Registry, o: Oracles, w: Window): (r: Registry)
    requires Dicts.Valid(reg.active)
    ensures Keys(r.active) == Keys(reg.active) && r.archive == reg.archive
    ensures (forall j | 0 <= j < |reg.active| :: reg.active[j].1.id != Some(w.id)) ==> r == reg
    ensures forall i | FirstWithId(reg.active, w.id, i) ::
      var e := reg.active[i].1;
      var parsed := ParseTitlePath(o, w.title);
      && (Truthy(parsed) && parsed != e.path ==> Has(r.active, reg.active[i].0) && Get(r.active, reg.active[i].0) == e.(path := parsed, title := w.title))
      && (!(Truthy(parsed) && parsed != e.path) ==> r == reg)
      && AgreeExcept(reg.active, r.active, {reg.active[i].0})
    ensures reg.Valid() ==> r.Valid()
  {
    match FirstIndex(reg.active, (name: string, e: Entry) => e.id == Some(w.id))
    case None => reg
    case Some(i) =>
      var e := reg.active[i].1;
      var parsed := ParseTitlePath(o, w.title);
      if Truthy(parsed) && parsed != e.path then
        GetAt(reg.active, i);
        PutAgree(reg.active, reg.active[i].0, e.(path := parsed, title := w.title));
        assert forall i' | FirstWithId(reg.active, w.id, i') :: i' == i;
        PutKeepsValid(reg.active, reg.active[i].0, e.(path := parsed, title := w.title));
        reg.(active := Put(reg.active, reg.active[i].0, e.(path := parsed, title := w.title)))
      else reg
  }

  /** An entry `_try_auto_assign` may bind to a focused window of application
      `app`: not an underscore name, auto-assign on, no live window (no handle,
      or a handle no longer enumerated), and the same application. */
  predicate AutoAssignable(snap: Snapshot, app: string, name: string, e: Entry) {
    && !StartsWith(name, "_")
    && e.autoAssign
    && (e.id.None? || FindWindowById(snap, e.id).None?)
    && e.app == app
  }

  /** Entry `i` is the first assignable one. */
  ghost predicate FirstAssignable(active: Dict<Entry>, snap: Snapshot, app: string, i: int) {
    && 0 <= i < |active|
    && AutoAssignable(snap, app, active[i].0, active[i].1)
    && forall j | 0 <= j < i :: !AutoAssignable(snap, app, active[j].0, active[j].1)
  }

  /** `_try_auto_assign`: bind the first assignable entry to the focused window. */
  function TryAutoAssign(reg: Registry, snap: Snapshot, w: Window, app: string): (r: Registry)
    requires Dicts.Valid(reg.active)
    ensures Keys(r.active) == Keys(reg.active) && r.archive == reg.archive
    ensures (forall j | 0 <= j < |reg.active| :: !AutoAssignable(snap, app, reg.active[j].0, reg.active[j].1)) ==> r == reg
    ensures forall i | FirstAssignable(reg.active, snap, app, i) ::
      && Has(r.active, reg.active[i].0)
      && Get(r.active, reg.active[i].0) == reg.active[i].1.(id := Some(w.id), title := w.title)
      && AgreeExcept(reg.active, r.active, {reg.active[i].0})
    ensures reg.Valid() ==> r.Valid()
  {
    match FirstIndex(reg.active, (name: string, e: Entry) => AutoAssignable(snap, app, name, e))
    case None => reg
    case Some(i) =>
      GetAt(reg.active, i);
      PutAgree(reg.active, reg.active[i].0, reg.active[i].1.(id := Some(w.id), title := w.title));
      assert forall i' | FirstAssignable(reg.active, snap, app, i') :: i' == i;
      PutKeepsValid(reg.active, reg.active[i].0, reg.active[i].1.(id := Some(w.id), title := w.title));
      reg.(active := Put(reg.active, reg.active[i].0, reg.active[i].1.(id := Some(w.id), title := w.title)))
  }

  // ---------------------------------------------------------------------------
  // recall_window: the registry refresh around focusing a saved window

  /** The result of `recall_window`: the registry afterwards and the window focused, if any. */
  datatype Recalled = Recalled(reg: Registry, window: Option<Window>)

  /** The path refresh on focus: a terminal entry takes a new, non-empty
      directory parsed from the window title. */
  function RefreshPath(o: Oracles, e: Entry, w: Window): (r: Entry)
    ensures r.(path := e.path) == e
    ensures IsTerminal(e.app) && Truthy(ParseTitlePath(o, w.title)) ==> r.path == ParseTitlePath(o, w.title)
    ensures !(IsTerminal(e.app) && Truthy(ParseTitlePath(o, w.title))) ==> r == e
  {
    if IsTerminal(e.app) then
      var parsed := ParseTitlePath(o, w.title);
      if Truthy(parsed) && parsed != e.path then e.(path := parsed) else e
    else e
  }

  /** `recall_window(name)`: look the window up by handle, else rematch it (and
      then store the new handle and title), then refresh a terminal's path. */
  function RecallWindow(reg: Registry, o: Oracles, snap: Snapshot, name: string): (r: Recalled)
    ensures !Has(reg.active, name) ==> r == Recalled(reg, None)
    ensures r.reg.archive == reg.archive && Keys(r.reg.active) == Keys(reg.active)
    ensures AgreeExcept(reg.active, r.reg.active, {name})
    ensures Has(reg.active, name) ==>
      var e := Get(reg.active, name);
      var byId := FindWindowById(snap, e.id);
      var again := RematchWindow(snap, e);
      && (r.window.Some? <==> byId.Some? || again.Some?)
      && (byId.Some? ==> r.window == byId && Has(r.reg.active, name) && Get(r.reg.active, name) == RefreshPath(o, e, byId.value))
      && (byId.None? && again.Some? ==>
            r.window == again && Has(r.reg.active, name) && Get(r.reg.active, name) == RefreshPath(o, e.(id := Some(again.value.id), title := again.value.title), again.value))
      && (r.window.None? ==> r.reg == reg)
    ensures reg.Valid() ==> r.reg.Valid()
  {
    if !Has(reg.active, name) then Recalled(reg, None)
    else
      var e := Get(reg.active, name);
      match FindWindowById(snap, e.id)
      case Some(w) =>
        PutAgree(reg.active, name, RefreshPath(o, e, w));
        PutKeepsValid(reg.active, name, RefreshPath(o, e, w));
        Recalled(reg.(active := Put(reg.active, name, RefreshPath(o, e, w))), Some(w))
      case None =>
        match RematchWindow(snap, e)
        case None => Recalled(reg, None)
        case Some(w) =>
          var e1 := e.(id := Some(w.id), title := w.title);
          PutAgree(reg.active, name, RefreshPath(o, e1, w));
          PutKeepsValid(reg.active, name, RefreshPath(o, e1, w));
          Recalled(reg.(active := Put(reg.active, name, RefreshPath(o, e1, w))), Some(w))
  }

  /** A rematched window becomes the entry's handle, so the next recall finds it by id. */
  lemma RematchPersistsHandle(reg: Registry, o: Oracles, snap: Snapshot, name: string)
    requires Has(reg.active, name)
    requires FindWindowById(snap, Get(reg.active, name).id).None?
    requires RematchWindow(snap, Get(reg.active, name)).Some?
    ensures var r := RecallWindow(reg, o, snap, name);
            && Get(r.reg.active, name).id == Some(r.window.value.id)
            && FindWindowById(snap, Get(r.reg.active, name).id).Some?
  {
    var r := RecallWindow(reg, o, snap, name);
    var w := r.window.value;
    var p :| IsFirst(snap, Resembles(Get(reg.active, name).app, Get(reg.active, name).path, Get(reg.active, name).title), p) && At(snap, p) == w;
    assert ValidPos(snap, p) && At(snap, p).id == w.id;
  }
}
