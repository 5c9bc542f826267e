/** The `Tag` record of lib/acts_as_taggable_on/tag.rb, its instance methods
    `==` and `to_s`, and the read scopes `with_tag_scope`, `named`,
    `named_any`, `named_any_equals`, `named_like` and `named_like_any`,
    each a filter over the rows of the tags table in row order. */
module Tags {
  import opened Options
  import opened Text
  import opened Seqs

  /** The polymorphic owner a tag is scoped to: the `scoped_type` column
      (the owner's class name) and the `scoped_id` column. */
  datatype ScopeRef = ScopeRef(typeName: string, id: int)

  /** A tag record. `id` is `None` while the record is unsaved; `scope` is
      `None` when both `scoped_id` and `scoped_type` are NULL. */
  datatype Tag = Tag(id: Option<nat>, name: string, scope: Option<ScopeRef>)

  /** `Tag#==`: the record equality of ActiveRecord (the other tag is saved
      and has the same id), or equal names. */
  predicate TagEquals(a: Tag, b: Tag) {
    (b.id.Some? && a.id == b.id) || a.name == b.name
  }

  /** `Tag#to_s`. */
  function ToS(t: Tag): string {
    t.name
  }

  /** Tags with exactly the same name are equal whatever their scopes and
      ids; tags with different names are equal only as the same saved
      record. Equality is symmetric. */
  lemma TagEqualsMeaning(a: Tag, b: Tag)
    ensures ToS(a) == ToS(b) ==> TagEquals(a, b) && TagEquals(b, a)
    ensures ToS(a) != ToS(b) ==> (TagEquals(a, b) <==> b.id.Some? && a.id == b.id)
    ensures TagEquals(a, b) <==> TagEquals(b, a)
    ensures TagEquals(a, a)
  {
  }

  /** The `with_tag_scope` condition for a given scope: no condition at all
      when there is no scope. */
  predicate InScope(t: Tag, scope: Option<ScopeRef>) {
    scope.None? || t.scope == scope
  }

  /** `where(:scoped_id => .., :scoped_type => ..)` as a row condition. */
  function OwnedBy(scope: Option<ScopeRef>): Tag -> bool {
    (t: Tag) => t.scope == scope
  }

  /** A name condition together with the scope condition. */
  function AndInScope(p: Tag -> bool, scope: Option<ScopeRef>): Tag -> bool {
    (t: Tag) => p(t) && InScope(t, scope)
  }

  /** `with_tag_scope(tag_scope)`: rows owned by that scope, or every row
      when `tag_scope` is nil. */
  function WithTagScope(rows: seq<Tag>, scope: Option<ScopeRef>): (r: seq<Tag>)
    ensures scope.None? ==> r == rows
    ensures forall t {:trigger t in r} :: t in r <==> t in rows && InScope(t, scope)
  {
    if scope.None? then rows else Filter(rows, OwnedBy(scope))
  }

  /** `tag_scope ? s.with_tag_scope(tag_scope) : s`, the tail of every named scope. */
  function Scoped(s: seq<Tag>, scope: Option<ScopeRef>): seq<Tag> {
    if scope.Some? then WithTagScope(s, scope) else s
  }

  /** A name condition followed by the scope condition is one filter on both,
      so every query returns its rows in row order. */
  lemma ScopedFilter(rows: seq<Tag>, p: Tag -> bool, scope: Option<ScopeRef>)
    ensures Scoped(Filter(rows, p), scope) == Filter(rows, AndInScope(p, scope))
  {
    if scope.None? {
      FilterSame(rows, p, AndInScope(p, scope));
    } else {
      FilterFilter(rows, p, OwnedBy(scope));
      FilterSame(rows, Both(p, OwnedBy(scope)), AndInScope(p, scope));
    }
  }

  /** `name = ?` or `name LIKE ?`. */
  function NameIs(name: string): Tag -> bool {
    (t: Tag) => SameName(t.name, name)
  }

  /** `name LIKE '%x%'`. */
  function NameHas(name: string): Tag -> bool {
    (t: Tag) => NameContains(t.name, name)
  }

  /** The tag's name equals one of `list` (`name = ?` or `name LIKE ?`
      joined with OR). */
  predicate EqualsAny(t: Tag, list: seq<string>) {
    exists n :: n in list && SameName(t.name, n)
  }

  /** The tag's name contains one of `list` (`name LIKE '%x%'` joined with OR). */
  predicate ContainsAny(t: Tag, list: seq<string>) {
    exists n :: n in list && NameContains(t.name, n)
  }

  function NameIsAny(list: seq<string>): Tag -> bool {
    (t: Tag) => EqualsAny(t, list)
  }

  function NameHasAny(list: seq<string>): Tag -> bool {
    (t: Tag) => ContainsAny(t, list)
  }

  /** `named(name, tag_scope)`. */
  function Named(rows: seq<Tag>, name: string, scope: Option<ScopeRef>): (r: seq<Tag>)
    ensures forall t {:trigger t in r} :: t in r <==> t in rows && SameName(t.name, name) && InScope(t, scope)
  {
    Scoped(Filter(rows, NameIs(name)), scope)
  }

  /** `named_any(list, tag_scope)`; an empty list would give an empty SQL
      condition, a case the resolver never reaches. */
  function NamedAny(rows: seq<Tag>, list: seq<string>, scope: Option<ScopeRef>): (r: seq<Tag>)
    requires list != []
    ensures forall t {:trigger t in r} :: t in r <==> t in rows && EqualsAny(t, list) && InScope(t, scope)
  {
    Scoped(Filter(rows, NameIsAny(list)), scope)
  }

  /** `named_any_equals(list, tag_scope)`: `=` instead of `LIKE`, which under
      a case-insensitive collation selects the same rows as `named_any`. */
  function NamedAnyEquals(rows: seq<Tag>, list: seq<string>, scope: Option<ScopeRef>): (r: seq<Tag>)
    requires list != []
    ensures forall t {:trigger t in r} :: t in r <==> t in rows && EqualsAny(t, list) && InScope(t, scope)
    ensures r == NamedAny(rows, list, scope)
  {
    NamedAny(rows, list, scope)
  }

  /** `named_like(name, tag_scope)`. */
  function NamedLike(rows: seq<Tag>, name: string, scope: Option<ScopeRef>): (r: seq<Tag>)
    ensures forall t {:trigger t in r} :: t in r <==> t in rows && NameContains(t.name, name) && InScope(t, scope)
  {
    Scoped(Filter(rows, NameHas(name)), scope)
  }

  /** `named_like_any(list, tag_scope)`. */
  function NamedLikeAny(rows: seq<Tag>, list: seq<string>, scope: Option<ScopeRef>): (r: seq<Tag>)
    requires list != []
    ensures forall t {:trigger t in r} :: t in r <==> t in rows && ContainsAny(t, list) && InScope(t, scope)
  {
    Scoped(Filter(rows, NameHasAny(list)), scope)
  }

  /** Every query returns the matching rows in row order: it is one stable
      filter of the table on the name condition and the scope condition. */
  lemma QueriesInRowOrder(rows: seq<Tag>, name: string, list: seq<string>, scope: Option<ScopeRef>)
    ensures Named(rows, name, scope) == Filter(rows, AndInScope(NameIs(name), scope))
    ensures NamedLike(rows, name, scope) == Filter(rows, AndInScope(NameHas(name), scope))
    ensures list != [] ==>
      NamedAny(rows, list, scope) == Filter(rows, AndInScope(NameIsAny(list), scope))
    ensures list != [] ==>
      NamedLikeAny(rows, list, scope) == Filter(rows, AndInScope(NameHasAny(list), scope))
  {
    ScopedFilter(rows, NameIs(name), scope);
    ScopedFilter(rows, NameHas(name), scope);
    ScopedFilter(rows, NameIsAny(list), scope);
    ScopedFilter(rows, NameHasAny(list), scope);
  }

  /** Whatever `named` finds, `named_like` finds too; with a one-element
      list, `named_any` is `named` and `named_like_any` is `named_like`. */
  lemma QueriesNest(rows: seq<Tag>, name: string, scope: Option<ScopeRef>)
    ensures forall t :: t in Named(rows, name, scope) ==> t in NamedLike(rows, name, scope)
    ensures NamedAny(rows, [name], scope) == Named(rows, name, scope)
    ensures NamedLikeAny(rows, [name], scope) == NamedLike(rows, name, scope)
  {
    forall t | t in Named(rows, name, scope) ensures t in NamedLike(rows, name, scope) {
      SameNameContains(t.name, name);
    }
    FilterSame(rows, NameIsAny([name]), NameIs(name));
    FilterSame(rows, NameHasAny([name]), NameHas(name));
  }

  /** The argument of `find_or_create_all_with_like_by_name`: one name or a
      (possibly nested) array of them. */
  datatype NameArg = Name(text: string) | Names(items: seq<NameArg>)

  /** `[list].flatten`. */
  function Flatten(a: NameArg): seq<string> {
    match a
    case Name(s) => [s]
    case Names(xs) => FlattenAll(xs)
  }

  function FlattenAll(xs: seq<NameArg>): seq<string> {
    if xs == [] then [] else Flatten(xs[0]) + FlattenAll(xs[1..])
  }

  /** A single name is wrapped as a one-element list; an array of plain
      names is kept as it is; a nested array is replaced by its flattened
      elements, and sibling arrays are spliced left to right. */
  lemma {:induction false} FlattenMeaning(s: string, names: seq<string>, xs: seq<NameArg>, ys: seq<NameArg>)
    ensures Flatten(Name(s)) == [s]
    ensures Flatten(Names(seq(|names|, i requires 0 <= i < |names| => Name(names[i])))) == names
    ensures FlattenAll([Names(xs)]) == FlattenAll(xs)
    ensures FlattenAll(xs + ys) == FlattenAll(xs) + FlattenAll(ys)
  {
    assert [Names(xs)][1..] == [];
    FlattenPlain(names);
    FlattenAllAppend(xs, ys);
  }

  lemma {:induction false} FlattenPlain(names: seq<string>)
    ensures FlattenAll(seq(|names|, i requires 0 <= i < |names| => Name(names[i]))) == names
  {
    if names != [] {
      var xs := seq(|names|, i requires 0 <= i < |names| => Name(names[i]));
      FlattenPlain(names[1..]);
      assert xs[1..] == seq(|names[1..]|, i requires 0 <= i < |names[1..]| => Name(names[1..][i]));
    }
  }

  lemma {:induction false} FlattenAllAppend(xs: seq<NameArg>, ys: seq<NameArg>)
    ensures FlattenAll(xs + ys) == FlattenAll(xs) + FlattenAll(ys)
  {
    if xs == [] {
      assert xs + ys == ys;
    } else {
      assert (xs + ys)[1..] == xs[1..] + ys;
      FlattenAllAppend(xs[1..], ys);
    }
  }
}
