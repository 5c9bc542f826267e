/** The writing half of lib/acts_as_taggable_on/tag.rb: `create_scoped_tag`
    with the two validations of the `Tag` record, and the two resolvers
    `find_or_create_with_like_by_name` and
    `find_or_create_all_with_like_by_name` built on it. Each is given as a
    function on a snapshot of the tags table (the specification) and as a
    method of `Store`, the table itself, proved to follow it. */
module TagStore {
  import opened Options
  import opened Text
  import opened Seqs
  import opened Tags

  /** The tags table: its rows in row order and the next auto-increment id. */
  datatype Table = Table(rows: seq<Tag>, nextId: nat)

  /** A tag handed back to the caller, and the table afterwards. */
  datatype Created = Created(tag: Tag, table: Table)

  /** A list of tags handed back to the caller, and the table afterwards. */
  datatype Batch = Batch(tags: seq<Tag>, table: Table)

  /** Another row already has exactly this name in exactly this scope: what
      `validates_uniqueness_of :name, :scope => [:scoped_id, :scoped_type]`
      looks for. */
  predicate NameTaken(rows: seq<Tag>, name: string, scope: Option<ScopeRef>) {
    exists t :: t in rows && t.name == name && t.scope == scope
  }

  /** Both validations pass: `validates_presence_of :name` and the uniqueness
      validation. */
  predicate Passes(rows: seq<Tag>, t: Tag) {
    !Blank(t.name) && !NameTaken(rows, t.name, t.scope)
  }

  /** No two rows share their name and their scope. */
  predicate Unique(rows: seq<Tag>) {
    forall i, j :: 0 <= i < j < |rows| ==> rows[i].name != rows[j].name || rows[i].scope != rows[j].scope
  }

  /** What every row of a table written only through `save` satisfies: it
      was given an id below the counter, ids grow in row order, its name is
      present, and (name, scope) is unique. */
  predicate WellFormed(tb: Table) {
    (forall i :: 0 <= i < |tb.rows| ==>
      tb.rows[i].id.Some? && tb.rows[i].id.value < tb.nextId && !Blank(tb.rows[i].name)) &&
    (forall i, j :: 0 <= i < j < |tb.rows| ==> tb.rows[i].id.value < tb.rows[j].id.value) &&
    Unique(tb.rows)
  }

  /** `create_scoped_tag(name, tag_scope)`: build a tag named `name.strip`,
      attach the scope when there is one, and `save` it, which appends a row
      only when both validations pass. */
  function Insert(tb: Table, name: string, scope: Option<ScopeRef>): (c: Created)
    ensures c.tag.name == Strip(name) && c.tag.scope == scope
    ensures c.tag.id.Some? ==> c.table.rows == tb.rows + [c.tag] && c.table.nextId == tb.nextId + 1
    ensures c.tag.id.None? ==> c.table == tb
  {
    var tag := Tag(None, Strip(name), scope);
    if Passes(tb.rows, tag) then
      var saved := tag.(id := Some(tb.nextId));
      Created(saved, Table(tb.rows + [saved], tb.nextId + 1))
    else
      Created(tag, tb)
  }

  /** The tag returned carries the stripped name and the given scope. It is
      saved with the next id and appended exactly when the stripped name is
      not empty and no row has that name in that scope; otherwise it comes
      back unsaved and the table is untouched. */
  lemma InsertOutcome(tb: Table, name: string, scope: Option<ScopeRef>)
    ensures var c := Insert(tb, name, scope);
      c.tag.name == Strip(name) && c.tag.scope == scope &&
      (Strip(name) == [] ==> c.tag.id.None? && c.table == tb) &&
      (NameTaken(tb.rows, Strip(name), scope) ==> c.tag.id.None? && c.table == tb) &&
      (Strip(name) != [] && !NameTaken(tb.rows, Strip(name), scope) ==>
        c.tag.id == Some(tb.nextId) && c.table == Table(tb.rows + [c.tag], tb.nextId + 1))
  {
    StripBlankIffEmpty(name);
  }

  /** Saving keeps the table well formed. */
  lemma InsertWellFormed(tb: Table, name: string, scope: Option<ScopeRef>)
    requires WellFormed(tb)
    ensures WellFormed(Insert(tb, name, scope).table)
  {
    var c := Insert(tb, name, scope);
    if c.tag.id.Some? {
      var rows := c.table.rows;
      assert rows[|rows| - 1] == c.tag;
      forall i, j | 0 <= i < j < |rows| ensures rows[i].name != rows[j].name || rows[i].scope != rows[j].scope {
        if j == |rows| - 1 {
          assert rows[i] in tb.rows;
        }
      }
    }
  }

  /** The `map` over the new names in `find_or_create_all_with_like_by_name`:
      `create_scoped_tag` on each name in turn (stated from the back, as the
      loop extends its prefix). */
  function CreateAll(tb: Table, names: seq<string>, scope: Option<ScopeRef>): (b: Batch)
    ensures |b.tags| == |names|
    ensures forall i {:trigger b.tags[i]} :: 0 <= i < |names| ==> b.tags[i].name == Strip(names[i]) && b.tags[i].scope == scope
    ensures |tb.rows| <= |b.table.rows| <= |tb.rows| + |names|
    ensures b.table.rows[..|tb.rows|] == tb.rows
    decreases |names|
  {
    if names == [] then Batch([], tb)
    else
      var init := names[..|names| - 1];
      var prev := CreateAll(tb, init, scope);
      var c := Insert(prev.table, names[|names| - 1], scope);
      assert forall i :: 0 <= i < |init| ==> init[i] == names[i];
      assert c.table.rows[..|tb.rows|] == prev.table.rows[..|tb.rows|];
      Batch(prev.tags + [c.tag], c.table)
  }

  /** Extending the list of names by one runs one more `create_scoped_tag`
      on the table the shorter list left behind. */
  lemma CreateAllSnoc(tb: Table, names: seq<string>, i: nat, scope: Option<ScopeRef>)
    requires i < |names|
    ensures var prev := CreateAll(tb, names[..i], scope);
      var c := Insert(prev.table, names[i], scope);
      CreateAll(tb, names[..i + 1], scope) == Batch(prev.tags + [c.tag], c.table)
  {
    assert names[..i + 1][..i] == names[..i];
  }

  /** Whether a returned tag was saved. */
  function IsSaved(): Tag -> bool {
    (t: Tag) => t.id.Some?
  }

  /** Creating a list of names keeps the table well formed. */
  lemma {:induction false} CreateAllWellFormed(tb: Table, names: seq<string>, scope: Option<ScopeRef>)
    requires WellFormed(tb)
    ensures WellFormed(CreateAll(tb, names, scope).table)
    decreases |names|
  {
    if names != [] {
      var init := names[..|names| - 1];
      CreateAllWellFormed(tb, init, scope);
      InsertWellFormed(CreateAll(tb, init, scope).table, names[|names| - 1], scope);
    }
  }

  /** The rows a batch of creations adds are exactly the returned tags that
      were saved, in the order they were returned. */
  lemma {:induction false} CreateAllSaved(tb: Table, names: seq<string>, scope: Option<ScopeRef>)
    ensures var b := CreateAll(tb, names, scope);
      Filter(b.tags, IsSaved()) == b.table.rows[|tb.rows|..]
    decreases |names|
  {
    if names != [] {
      var init := names[..|names| - 1];
      var prev := CreateAll(tb, init, scope);
      CreateAllSaved(tb, init, scope);
      var c := Insert(prev.table, names[|names| - 1], scope);
      assert CreateAll(tb, names, scope) == Batch(prev.tags + [c.tag], c.table);
      FilterAppend(prev.tags, [c.tag], IsSaved());
      FilterSingle(c.tag, IsSaved());
      if c.tag.id.Some? {
        SuffixAppend(prev.table.rows, [c.tag], |tb.rows|);
      }
    }
  }

  lemma SuffixAppend(a: seq<Tag>, b: seq<Tag>, k: nat)
    requires k <= |a|
    ensures (a + b)[k..] == a[k..] + b
  {
  }

  /** Every row a batch of creations adds lies in the batch's scope and bears
      the stripped form of one of the names, and no two added rows share a
      name: a name repeated in the batch adds at most one row. */
  lemma CreateAllAddsDistinct(tb: Table, names: seq<string>, scope: Option<ScopeRef>)
    requires WellFormed(tb)
    ensures var added := CreateAll(tb, names, scope).table.rows[|tb.rows|..];
      (forall t :: t in added ==> t.scope == scope && exists n :: n in names && t.name == Strip(n)) &&
      (forall i, j :: 0 <= i < j < |added| ==> added[i].name != added[j].name)
  {
    var b := CreateAll(tb, names, scope);
    CreateAllWellFormed(tb, names, scope);
    CreateAllSaved(tb, names, scope);
    var added := b.table.rows[|tb.rows|..];
    forall t | t in added ensures t.scope == scope && exists n :: n in names && t.name == Strip(n) {
      assert t in Filter(b.tags, IsSaved());
      var i :| 0 <= i < |b.tags| && b.tags[i] == t;
      assert names[i] in names;
    }
    forall i, j | 0 <= i < j < |added| ensures added[i].name != added[j].name {
      assert added[i] == b.table.rows[|tb.rows| + i];
      assert added[j] == b.table.rows[|tb.rows| + j];
      assert added[i] in added && added[j] in added;
    }
  }

  /** The number of rows a batch adds is at most the number of distinct
      stripped names in it. */
  lemma CreateAllCount(tb: Table, names: seq<string>, scope: Option<ScopeRef>)
    requires WellFormed(tb)
    ensures |CreateAll(tb, names, scope).table.rows| - |tb.rows| <= |set n | n in names :: Strip(n)|
  {
    var b := CreateAll(tb, names, scope);
    CreateAllAddsDistinct(tb, names, scope);
    var added := b.table.rows[|tb.rows|..];
    var addedNames := seq(|added|, i requires 0 <= i < |added| => added[i].name);
    DistinctCard(addedNames);
    var wanted := set n | n in names :: Strip(n);
    var got := set x | x in addedNames;
    assert got <= wanted by {
      forall x | x in addedNames ensures x in wanted {
        var i :| 0 <= i < |addedNames| && addedNames[i] == x;
        assert added[i] in added;
      }
    }
    SubsetCard(got, wanted);
  }

  lemma {:induction false} DistinctCard(s: seq<string>)
    requires forall i, j :: 0 <= i < j < |s| ==> s[i] != s[j]
    ensures |set x | x in s| == |s|
  {
    if s != [] {
      DistinctCard(s[1..]);
      assert (set x | x in s) == {s[0]} + (set x | x in s[1..]);
      assert s[0] !in (set x | x in s[1..]);
    }
  }

  lemma SubsetCard(a: set<string>, b: set<string>)
    requires a <= b
    ensures |a| <= |b|
  {
    assert b == a + (b - a);
  }

  /** The `reject` of `find_or_create_all_with_like_by_name`: a tag is already
      known when its `comparable_name` (downcase) equals the name's. */
  predicate Known(existing: seq<Tag>, name: string) {
    exists t :: t in existing && Downcase(t.name) == Downcase(name)
  }

  function NotKnown(existing: seq<Tag>): string -> bool {
    (n: string) => !Known(existing, n)
  }

  /** The requested names none of the existing tags matches, in input order,
      duplicates kept. */
  function NewTagNames(list: seq<string>, existing: seq<Tag>): (r: seq<string>)
    ensures forall n {:trigger n in r} :: n in r <==> n in list && !Known(existing, n)
  {
    Filter(list, NotKnown(existing))
  }

  /** `find_or_create_all_with_like_by_name(list, tag_scope)`. */
  function FindOrCreateAll(tb: Table, list: NameArg, scope: Option<ScopeRef>): (b: Batch)
    ensures |tb.rows| <= |b.table.rows| && b.table.rows[..|tb.rows|] == tb.rows
    ensures forall t :: t in b.tags ==> InScope(t, scope)
    ensures Flatten(list) == [] ==> b == Batch([], tb)
  {
    var names := Flatten(list);
    if names == [] then Batch([], tb)
    else
      var existing := NamedAnyEquals(tb.rows, names, scope);
      var created := CreateAll(tb, NewTagNames(names, existing), scope);
      assert forall t :: t in created.tags ==> t.scope == scope by {
        forall t | t in created.tags ensures t.scope == scope {
          var i :| 0 <= i < |created.tags| && created.tags[i] == t;
        }
      }
      Batch(existing + created.tags, created.table)
  }

  /** A requested name is sent to `create_scoped_tag` exactly when no row in
      the lookup's scope has that name case-insensitively (with no scope,
      rows of every scope count). */
  lemma NewTagNamesAreMissing(rows: seq<Tag>, names: seq<string>, scope: Option<ScopeRef>, n: string)
    requires names != []
    ensures n in NewTagNames(names, NamedAnyEquals(rows, names, scope)) <==>
      n in names && forall t :: t in rows && InScope(t, scope) ==> !SameName(t.name, n)
  {
    var existing := NamedAnyEquals(rows, names, scope);
    if n in names && Known(existing, n) {
      var t :| t in existing && Downcase(t.name) == Downcase(n);
      assert t in rows && InScope(t, scope) && SameName(t.name, n);
    }
    forall t | n in names && t in rows && InScope(t, scope) && SameName(t.name, n)
      ensures Known(existing, n)
    {
      assert EqualsAny(t, names);
      assert t in existing;
    }
  }

  /** An empty argument returns no tags and leaves the table alone. */
  lemma FindOrCreateAllEmpty(tb: Table, list: NameArg)
    requires Flatten(list) == []
    ensures forall scope :: FindOrCreateAll(tb, list, scope) == Batch([], tb)
  {
  }

  /** The batch result starts with the existing tags: every row of the
      lookup's scope whose name equals a requested name case-insensitively,
      in row order (with no scope, rows of every scope). */
  lemma FindOrCreateAllExisting(tb: Table, list: NameArg, scope: Option<ScopeRef>)
    requires Flatten(list) != []
    ensures var existing := Filter(tb.rows, AndInScope(NameIsAny(Flatten(list)), scope));
      var b := FindOrCreateAll(tb, list, scope);
      |existing| <= |b.tags| && b.tags[..|existing|] == existing &&
      forall t :: t in existing <==> t in tb.rows && InScope(t, scope) && EqualsAny(t, Flatten(list))
  {
    var names := Flatten(list);
    QueriesInRowOrder(tb.rows, "", names, scope);
    var existing := NamedAnyEquals(tb.rows, names, scope);
    var b := FindOrCreateAll(tb, list, scope);
    assert b.tags[..|existing|] == existing;
  }

  /** After the existing tags come the results of `create_scoped_tag` on the
      missing names, in input order: by the contract of CreateAll, one tag
      per missing name carrying its stripped form and the scope. */
  lemma FindOrCreateAllCreated(tb: Table, list: NameArg, scope: Option<ScopeRef>)
    requires Flatten(list) != []
    ensures var existing := NamedAnyEquals(tb.rows, Flatten(list), scope);
      var missing := NewTagNames(Flatten(list), existing);
      var b := FindOrCreateAll(tb, list, scope);
      |b.tags| == |existing| + |missing| &&
      b.tags[|existing|..] == CreateAll(tb, missing, scope).tags &&
      b.table == CreateAll(tb, missing, scope).table
  {
    var names := Flatten(list);
    var existing := NamedAnyEquals(tb.rows, names, scope);
    var created := CreateAll(tb, NewTagNames(names, existing), scope).tags;
    assert FindOrCreateAll(tb, list, scope).tags[|existing|..] == created;
  }

  /** Every requested name is answered by a returned tag: a row that matches
      it case-insensitively and was already stored, or a tag carrying its
      stripped form. */
  lemma FindOrCreateAllCoversNames(tb: Table, list: NameArg, scope: Option<ScopeRef>, n: string)
    requires n in Flatten(list)
    ensures exists t :: t in FindOrCreateAll(tb, list, scope).tags &&
                        ((t in tb.rows && InScope(t, scope) && SameName(t.name, n)) || t.name == Strip(n))
  {
    var names := Flatten(list);
    var b := FindOrCreateAll(tb, list, scope);
    var existing := NamedAnyEquals(tb.rows, names, scope);
    var missing := NewTagNames(names, existing);
    var created := CreateAll(tb, missing, scope).tags;
    if Known(existing, n) {
      var t :| t in existing && Downcase(t.name) == Downcase(n);
      assert t in b.tags;
    } else {
      assert n in missing;
      var i :| 0 <= i < |missing| && missing[i] == n;
      assert created[i] in b.tags;
    }
  }

  /** The batch keeps the table well formed, keeps every old row unchanged and
      in place, and adds at most one row per name it tried to create. */
  lemma FindOrCreateAllGrows(tb: Table, list: NameArg, scope: Option<ScopeRef>)
    requires WellFormed(tb)
    ensures var b := FindOrCreateAll(tb, list, scope);
      WellFormed(b.table) &&
      |tb.rows| <= |b.table.rows| &&
      b.table.rows[..|tb.rows|] == tb.rows &&
      |b.table.rows| - |tb.rows| <= |b.tags|
  {
    var names := Flatten(list);
    if names != [] {
      var existing := NamedAnyEquals(tb.rows, names, scope);
      CreateAllWellFormed(tb, NewTagNames(names, existing), scope);
    }
  }

  /** Creating in one scope leaves every other scope's rows as they were. */
  lemma FindOrCreateAllIsolation(tb: Table, list: NameArg, scope: Option<ScopeRef>, other: Option<ScopeRef>)
    requires other.Some? && other != scope
    ensures WithTagScope(FindOrCreateAll(tb, list, scope).table.rows, other) == WithTagScope(tb.rows, other)
  {
    var names := Flatten(list);
    if names != [] {
      var existing := NamedAnyEquals(tb.rows, names, scope);
      CreateAllIsolation(tb, NewTagNames(names, existing), scope, other);
    }
  }

  lemma {:induction false} CreateAllIsolation(tb: Table, names: seq<string>, scope: Option<ScopeRef>, other: Option<ScopeRef>)
    requires other != scope
    ensures Filter(CreateAll(tb, names, scope).table.rows, OwnedBy(other)) == Filter(tb.rows, OwnedBy(other))
    decreases |names|
  {
    if names != [] {
      var init := names[..|names| - 1];
      CreateAllIsolation(tb, init, scope, other);
      var prev := CreateAll(tb, init, scope);
      var c := Insert(prev.table, names[|names| - 1], scope);
      if c.tag.id.Some? {
        FilterAppend(prev.table.rows, [c.tag], OwnedBy(other));
        FilterSingle(c.tag, OwnedBy(other));
      }
    }
  }

  /** `find_or_create_with_like_by_name(name, tag_scope)`:
      `named_like(name, tag_scope).first || create_scoped_tag(name, tag_scope)`. */
  function FindOrCreateOne(tb: Table, name: string, scope: Option<ScopeRef>): (c: Created)
    ensures InScope(c.tag, scope)
    ensures c.table == tb || (c.tag.id.Some? && c.table.rows == tb.rows + [c.tag])
    ensures c.table == tb ==> c.tag in tb.rows || (c.tag.id.None? && c.tag.name == Strip(name))
  {
    var found := NamedLike(tb.rows, name, scope);
    if found != [] then
      assert found[0] in found;
      Created(found[0], tb)
    else Insert(tb, name, scope)
  }

  /** When some row of the scope contains the name case-insensitively, the
      first such row in row order is returned and nothing is written. */
  lemma FindOrCreateOneFirstMatch(tb: Table, name: string, scope: Option<ScopeRef>, i: nat)
    requires i < |tb.rows| && NameContains(tb.rows[i].name, name) && InScope(tb.rows[i], scope)
    requires forall j :: 0 <= j < i ==> !(NameContains(tb.rows[j].name, name) && InScope(tb.rows[j], scope))
    ensures FindOrCreateOne(tb, name, scope) == Created(tb.rows[i], tb)
  {
    QueriesInRowOrder(tb.rows, name, [name], scope);
    FilterFirst(tb.rows, AndInScope(NameHas(name), scope), i);
  }

  /** When no row of the scope contains the name, the result is that of
      `create_scoped_tag`. */
  lemma FindOrCreateOneNoMatch(tb: Table, name: string, scope: Option<ScopeRef>)
    requires forall t :: t in tb.rows && InScope(t, scope) ==> !NameContains(t.name, name)
    ensures FindOrCreateOne(tb, name, scope) == Insert(tb, name, scope)
  {
    QueriesInRowOrder(tb.rows, name, [name], scope);
    FilterNone(tb.rows, AndInScope(NameHas(name), scope));
  }

  /** A stored row with exactly the requested name (in any case) is found
      rather than duplicated, unless an earlier row of the scope contains
      the name: the substring search may return a longer name first. */
  lemma FindOrCreateOneFindsExact(tb: Table, name: string, scope: Option<ScopeRef>, t: Tag)
    requires t in tb.rows && InScope(t, scope) && SameName(t.name, name)
    ensures var c := FindOrCreateOne(tb, name, scope);
      c.table == tb && c.tag in tb.rows && InScope(c.tag, scope) && NameContains(c.tag.name, name)
  {
    SameNameContains(t.name, name);
    var found := NamedLike(tb.rows, name, scope);
    assert t in found;
    assert found[0] in found;
  }

  /** The single lookup keeps the table well formed and only ever appends. */
  lemma FindOrCreateOneWellFormed(tb: Table, name: string, scope: Option<ScopeRef>)
    requires WellFormed(tb)
    ensures var c := FindOrCreateOne(tb, name, scope);
      WellFormed(c.table) && |tb.rows| <= |c.table.rows| <= |tb.rows| + 1 &&
      c.table.rows[..|tb.rows|] == tb.rows
  {
    InsertWellFormed(tb, name, scope);
  }

  /** Within one scope of a well-formed table, `==` between two stored rows
      holds only for the row itself: equal names there mean the same row. */
  lemma StoredEqualityIsIdentity(tb: Table, i: nat, j: nat)
    requires WellFormed(tb)
    requires i < |tb.rows| && j < |tb.rows|
    requires tb.rows[i].scope == tb.rows[j].scope
    ensures TagEquals(tb.rows[i], tb.rows[j]) <==> i == j
  {
    if i < j {
      assert tb.rows[i].id.value < tb.rows[j].id.value;
    } else if j < i {
      assert tb.rows[j].id.value < tb.rows[i].id.value;
    }
  }

  /** The tags table. */
  class Store {
    var rows: seq<Tag>
    var nextId: nat

    function Snapshot(): Table
      reads this
    {
      Table(rows, nextId)
    }

    predicate Valid()
      reads this
    {
      WellFormed(Snapshot())
    }

    /** An empty table whose first id will be 1. */
    constructor ()
      ensures Valid() && Snapshot() == Table([], 1)
    {
      rows := [];
      nextId := 1;
    }

    /** `Tag.create_scoped_tag(name, tag_scope)`. */
    method CreateScopedTag(name: string, scope: Option<ScopeRef>) returns (tag: Tag)
      requires Valid()
      modifies this
      ensures Valid()
      ensures Created(tag, Snapshot()) == Insert(old(Snapshot()), name, scope)
    {
      InsertWellFormed(Snapshot(), name, scope);
      tag := Tag(None, Strip(name), None);
      if scope.Some? {
        tag := tag.(scope := scope);
      }
      if Passes(rows, tag) {
        tag := tag.(id := Some(nextId));
        rows := rows + [tag];
        nextId := nextId + 1;
      }
    }

    /** `Tag.find_or_create_with_like_by_name(name, tag_scope)`. */
    method FindOrCreateWithLikeByName(name: string, scope: Option<ScopeRef>) returns (tag: Tag)
      requires Valid()
      modifies this
      ensures Valid()
      ensures Created(tag, Snapshot()) == FindOrCreateOne(old(Snapshot()), name, scope)
    {
      var found := NamedLike(rows, name, scope);
      if found != [] {
        tag := found[0];
      } else {
        tag := CreateScopedTag(name, scope);
      }
    }

    /** `Tag.find_or_create_all_with_like_by_name(list, tag_scope)`. */
    method FindOrCreateAllWithLikeByName(list: NameArg, scope: Option<ScopeRef>) returns (tags: seq<Tag>)
      requires Valid()
      modifies this
      ensures Valid()
      ensures Batch(tags, Snapshot()) == FindOrCreateAll(old(Snapshot()), list, scope)
    {
      var names := Flatten(list);
      if names == [] {
        return [];
      }
      var existing := NamedAnyEquals(rows, names, scope);
      var newNames := NewTagNames(names, existing);
      var created: seq<Tag> := [];
      var i := 0;
      while i < |newNames|
        invariant 0 <= i <= |newNames|
        invariant Valid()
        invariant Batch(created, Snapshot()) == CreateAll(old(Snapshot()), newNames[..i], scope)
      {
        CreateAllSnoc(old(Snapshot()), newNames, i, scope);
        var tag := CreateScopedTag(newNames[i], scope);
        created := created + [tag];
        i := i + 1;
      }
      assert newNames[..i] == newNames;
      tags := existing + created;
    }
  }
}
