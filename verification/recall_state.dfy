/**
 * Shared recall state: the entry records, the active and archived registries,
 * forbidden-name checking, the map-level shape of the storage file, the
 * spoken-name map handed to the grammar, and the pending two-step command.
 */
module RecallState {
  import opened Common
  import opened Text
  import opened Dicts

  /** One named window. `id` is a cached window handle and may be stale. */
  datatype Entry = Entry(
    id: Option<int>,
    app: string,
    title: string,
    path: Option<string>,
    aliases: seq<string>,
    command: Option<string>,
    autoAssign: bool)

  /** An archived entry: the active record verbatim plus the time it was forgotten. */
  datatype Archived = Archived(entry: Entry, forgottenAt: real)

  /** `saved_windows` and `archived_windows`. */
  datatype Registry = Registry(active: Dict<Entry>, archive: Dict<Archived>) {
    predicate Valid() {
      Dicts.Valid(active) && Dicts.Valid(archive)
    }
  }

  const Empty: Registry := Registry([], [])

  /** Python truthiness of a nullable string: present and non-empty. */
  predicate Truthy(s: Option<string>) {
    s.Some? && s.value != ""
  }

  /** `is_forbidden`: the lower-cased name is one of the forbidden list's values. */
  predicate IsForbidden(forbidden: map<string, string>, name: string) {
    Lower(name) in forbidden.Values
  }

  /** The test ignores ASCII case: a name and its lower-cased form are
      forbidden together. */
  lemma IsForbiddenIgnoresCase(forbidden: map<string, string>, name: string)
    ensures IsForbidden(forbidden, name) <==> IsForbidden(forbidden, Lower(name))
  {
    assert Lower(Lower(name)) == Lower(name);
  }

  // ---------------------------------------------------------------------------
  // Storage, at the level of maps: the file is one top-level object whose
  // `_archive` member holds the archive and whose other members are entries.

  const ArchiveKey: string := "_archive"

  /** A top-level value of the storage document. */
  datatype Stored = EntryValue(entry: Entry) | ArchiveValue(items: Dict<Archived>)

  type Document = Dict<Stored>

  /** What reading the storage file yields: no file, a failure to read or parse, or a document. */
  datatype StorageFile = Absent | Unreadable | Readable(doc: Document)

  /** `dict(saved_windows)`: every active entry as a top-level value, in order. */
  function EntryValues(active: Dict<Entry>): (doc: Document)
    ensures Keys(doc) == Keys(active)
    ensures forall i | 0 <= i < |doc| :: doc[i].1 == EntryValue(active[i].1)
  {
    if active == [] then [] else [(active[0].0, EntryValue(active[0].1))] + EntryValues(active[1..])
  }

  /** The document `save_to_disk` writes. */
  function SaveDocument(reg: Registry): (doc: Document)
    ensures Has(doc, ArchiveKey) <==> |reg.archive| > 0 || Has(reg.active, ArchiveKey)
    ensures |reg.archive| > 0 ==> Get(doc, ArchiveKey) == ArchiveValue(reg.archive)
    ensures forall k | k != ArchiveKey :: Has(doc, k) <==> Has(reg.active, k)
    ensures forall k | k != ArchiveKey && Has(reg.active, k) :: Get(doc, k) == EntryValue(Get(reg.active, k))
  {
    var base := EntryValues(reg.active);
    forall k ensures Has(base, k) <==> Has(reg.active, k) {
      HasKeys(base, k);
      HasKeys(reg.active, k);
    }
    forall k | Has(reg.active, k) ensures Get(base, k) == EntryValue(Get(reg.active, k)) {
      EntryValuesGet(reg.active, k);
    }
    if |reg.archive| > 0 then Put(base, ArchiveKey, ArchiveValue(reg.archive)) else base
  }

  lemma {:induction false} EntryValuesGet(active: Dict<Entry>, k: string)
    requires Has(active, k)
    ensures Has(EntryValues(active), k) && Get(EntryValues(active), k) == EntryValue(Get(active, k))
  {
    var doc := EntryValues(active);
    assert doc[0] == (active[0].0, EntryValue(active[0].1));
    if active[0].0 != k {
      EntryValuesGet(active[1..], k);
      assert doc[1..] == EntryValues(active[1..]);
    }
  }

  /** The entries of a document all of whose values are entries, else None. */
  function EntriesOf(doc: Document): (r: Option<Dict<Entry>>)
    ensures r.Some? ==> Keys(r.value) == Keys(doc)
    ensures r.Some? ==> forall i | 0 <= i < |doc| :: doc[i].1 == EntryValue(r.value[i].1)
    ensures r.None? ==> exists i | 0 <= i < |doc| :: doc[i].1.ArchiveValue?
  {
    if doc == [] then Some([])
    else if doc[0].1.ArchiveValue? then None
    else match EntriesOf(doc[1..])
      case None => None
      case Some(rest) =>
        var r := [(doc[0].0, doc[0].1.entry)] + rest;
        assert forall i | 1 <= i < |doc| :: doc[i] == doc[1..][i - 1];
        Some(r)
  }

  /** A lookup in a document of entries is the entry's lookup, wrapped. */
  lemma {:induction false} EntriesOfGet(doc: Document, k: string)
    requires EntriesOf(doc).Some? && Has(doc, k)
    ensures Has(EntriesOf(doc).value, k)
    ensures Get(doc, k) == EntryValue(Get(EntriesOf(doc).value, k))
  {
    var es := EntriesOf(doc).value;
    assert es[0].0 == doc[0].0 && doc[0].1 == EntryValue(es[0].1);
    if doc[0].0 != k {
      EntriesOfGet(doc[1..], k);
      assert es[1..] == EntriesOf(doc[1..]).value;
    }
  }

  /** `data.pop("_archive", {})` and the rest as active entries, in document
      order; None when a value has the wrong shape (which the program reports
      like a parse error). */
  function SplitDocument(doc: Document): (r: Option<Registry>)
    ensures r.None? <==>
      || (Has(doc, ArchiveKey) && Get(doc, ArchiveKey).EntryValue?)
      || exists x | x in doc :: x.0 != ArchiveKey && x.1.ArchiveValue?
    ensures r.Some? && Has(doc, ArchiveKey) ==> ArchiveValue(r.value.archive) == Get(doc, ArchiveKey)
    ensures r.Some? && !Has(doc, ArchiveKey) ==> r.value.archive == []
    ensures r.Some? ==> forall k :: Has(r.value.active, k) <==> Has(doc, k) && k != ArchiveKey
    ensures r.Some? ==> forall k | Has(r.value.active, k) :: Get(doc, k) == EntryValue(Get(r.value.active, k))
    ensures r.Some? ==> Subseq(Keys(r.value.active), Keys(doc))
  {
    var rest := Del(doc, ArchiveKey);
    var archive :=
      if !Has(doc, ArchiveKey) then Some([])
      else match Get(doc, ArchiveKey)
        case ArchiveValue(a) => Some(a)
        case EntryValue(_) => None;
    DelItems(doc, ArchiveKey);
    match (archive, EntriesOf(rest))
    case (Some(a), Some(active)) =>
      forall k ensures Has(active, k) <==> Has(rest, k) {
        HasKeys(active, k);
        HasKeys(rest, k);
      }
      forall k | Has(active, k) ensures Get(doc, k) == EntryValue(Get(active, k)) {
        EntriesOfGet(rest, k);
      }
      forall x | x in doc && x.0 != ArchiveKey ensures !x.1.ArchiveValue? {
        var i :| 0 <= i < |rest| && rest[i] == x;
      }
      DelKeepsOrder(doc, ArchiveKey);
      Some(Registry(active, a))
    case _ => None
  }

  /** `load_saved_windows`: a missing file leaves memory untouched, a failure
      empties both maps, a well-formed document replaces both. */
  function LoadSaved(reg: Registry, file: StorageFile): (r: Registry)
    ensures file.Absent? ==> r == reg
    ensures file.Unreadable? ==> r == Empty
    ensures file.Readable? && SplitDocument(file.doc).None? ==> r == Empty
    ensures file.Readable? && SplitDocument(file.doc).Some? ==> r == SplitDocument(file.doc).value
  {
    match file
    case Absent => reg
    case Unreadable => Empty
    case Readable(doc) =>
      match SplitDocument(doc)
      case None => Empty
      case Some(loaded) => loaded
  }

  lemma {:induction false} DelAppended<V>(d: Dict<V>, k: string, v: V)
    requires !Has(d, k)
    ensures Del(d + [(k, v)], k) == d
  {
    if d != [] {
      DelAppended(d[1..], k, v);
      assert (d + [(k, v)])[1..] == d[1..] + [(k, v)];
    } else {
      assert ([(k, v)])[1..] == [];
    }
  }

  lemma {:induction false} EntriesOfEntryValues(active: Dict<Entry>)
    ensures EntriesOf(EntryValues(active)) == Some(active)
  {
    if active != [] {
      var ev := EntryValues(active);
      EntriesOfEntryValues(active[1..]);
      assert ev[1..] == EntryValues(active[1..]);
      assert ev[0] == (active[0].0, EntryValue(active[0].1));
      assert [(active[0].0, active[0].1)] + active[1..] == active;
    }
  }

  /** Loading what was saved gives back both maps, provided no entry is named `_archive`. */
  lemma SaveLoadRoundTrip(reg: Registry, before: Registry)
    requires !Has(reg.active, ArchiveKey)
    ensures LoadSaved(before, Readable(SaveDocument(reg))) == reg
  {
    var base := EntryValues(reg.active);
    HasKeys(base, ArchiveKey);
    HasKeys(reg.active, ArchiveKey);
    EntriesOfEntryValues(reg.active);
    if |reg.archive| > 0 {
      DelAppended(base, ArchiveKey, ArchiveValue(reg.archive));
    }
  }

  // ---------------------------------------------------------------------------
  // The spoken-name map of `update_window_list`: canonical names and aliases,
  // each pointing at its canonical name; later writes overwrite earlier ones.

  function AliasWrites(d: Dict<string>, aliases: seq<string>, owner: string): (r: Dict<string>)
    ensures forall s :: Has(r, s) <==> Has(d, s) || s in aliases
    ensures forall s | s in aliases :: Get(r, s) == owner
    ensures forall s | s !in aliases && Has(d, s) :: Get(r, s) == Get(d, s)
    decreases |aliases|
  {
    if aliases == [] then d
    else
      assert forall s :: s in aliases <==> s == aliases[0] || s in aliases[1..];
      AliasWrites(Put(d, aliases[0], owner), aliases[1..], owner)
  }

  function NameMapFrom(d: Dict<string>, active: Dict<Entry>): Dict<string>
    decreases |active|
  {
    if active == [] then d
    else
      var name := active[0].0;
      NameMapFrom(AliasWrites(Put(d, name, name), active[0].1.aliases, name), active[1..])
  }

  /** `name_map` as built by `update_window_list`. */
  function NameMap(active: Dict<Entry>): Dict<string> {
    NameMapFrom([], active)
  }

  /** Entry `i` answers to spoken form `s`, as its key or one of its aliases. */
  predicate Owns(active: Dict<Entry>, i: nat, s: string) {
    i < |active| && (active[i].0 == s || s in active[i].1.aliases)
  }

  lemma {:induction false} NameMapFromUnowned(d: Dict<string>, active: Dict<Entry>, s: string)
    requires forall j | 0 <= j < |active| :: !Owns(active, j, s)
    ensures Has(NameMapFrom(d, active), s) <==> Has(d, s)
    ensures Has(d, s) ==> Get(NameMapFrom(d, active), s) == Get(d, s)
    decreases |active|
  {
    if active != [] {
      assert !Owns(active, 0, s);
      forall j | 0 <= j < |active| - 1 ensures !Owns(active[1..], j, s) {
        assert !Owns(active, j + 1, s);
      }
      var name := active[0].0;
      NameMapFromUnowned(AliasWrites(Put(d, name, name), active[0].1.aliases, name), active[1..], s);
    }
  }

  lemma {:induction false} NameMapFromLastOwner(d: Dict<string>, active: Dict<Entry>, i: nat, s: string)
    requires Owns(active, i, s)
    requires forall j | i < j < |active| :: !Owns(active, j, s)
    ensures Has(NameMapFrom(d, active), s) && Get(NameMapFrom(d, active), s) == active[i].0
    decreases |active|
  {
    var name := active[0].0;
    var d1 := AliasWrites(Put(d, name, name), active[0].1.aliases, name);
    if i == 0 {
      forall j | 0 <= j < |active| - 1 ensures !Owns(active[1..], j, s) {
        assert !Owns(active, j + 1, s);
      }
      NameMapFromUnowned(d1, active[1..], s);
    } else {
      assert Owns(active[1..], i - 1, s);
      forall j | i - 1 < j < |active| - 1 ensures !Owns(active[1..], j, s) {
        assert !Owns(active, j + 1, s);
      }
      NameMapFromLastOwner(d1, active[1..], i - 1, s);
    }
  }

  /** The last entry (in iteration order) answering to `s` is where `s` points. */
  lemma NameMapLastWriteWins(active: Dict<Entry>, i: nat, s: string)
    requires Owns(active, i, s)
    requires forall j | i < j < |active| :: !Owns(active, j, s)
    ensures Has(NameMap(active), s) && Get(NameMap(active), s) == active[i].0
  {
    NameMapFromLastOwner([], active, i, s);
  }

  /** Some entry at or after `i` is the last one answering to `s`. */
  lemma {:induction false} LastOwnerExists(active: Dict<Entry>, i: nat, s: string) returns (last: nat)
    requires Owns(active, i, s)
    ensures i <= last && Owns(active, last, s)
    ensures forall j | last < j < |active| :: !Owns(active, j, s)
    decreases |active| - i
  {
    if j :| i < j < |active| && Owns(active, j, s) {
      last := LastOwnerExists(active, j, s);
    } else {
      last := i;
    }
  }

  /** A spoken form is in the map exactly when some entry answers to it. */
  lemma NameMapDomain(active: Dict<Entry>, s: string)
    ensures Has(NameMap(active), s) <==> exists i: nat :: Owns(active, i, s)
  {
    if i: nat :| Owns(active, i, s) {
      var last := LastOwnerExists(active, i, s);
      NameMapLastWriteWins(active, last, s);
    } else {
      NameMapFromUnowned([], active, s);
    }
  }

  // ---------------------------------------------------------------------------
  // Pending two-step command (`_pending_mode`, `_pending_name` and the
  // `recall_pending_input` tag).

  datatype Mode = NoMode | CombineMode | RenameMode | AliasMode

  datatype Pending = Pending(mode: Mode, name: string, tagged: bool)

  /** `_cancel_pending`: no mode, no name, tag cleared. */
  function CancelPending(): (p: Pending)
    ensures p.mode == NoMode && p.name == "" && !p.tagged
  {
    Pending(NoMode, "", false)
  }
}
