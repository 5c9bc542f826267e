# acts-as-taggable-on: the tag store and the taggable declaration, in Dafny

This project models two parts of the `acts-as-taggable-on` Rails plugin.

**The `ActsAsTaggableOn::Tag` record** (`lib/acts_as_taggable_on/tag.rb`):
- the tags table, each row with an auto-increment id, a name and an optional polymorphic owner (the scope);
- the presence and `(name, scoped_id, scoped_type)` uniqueness validations;
- the read scopes `with_tag_scope`, `named`, `named_any`, `named_any_equals`, `named_like` and `named_like_any`;
- `create_scoped_tag`;
- the two resolvers `find_or_create_with_like_by_name` and `find_or_create_all_with_like_by_name`;
- `==`, `to_s` and `comparable_name`.

**The class-level declaration `acts_as_taggable_on(*tag_types)`** and its alias `acts_as_taggable` (`lib/acts_as_taggable_on/acts_as_taggable_on.rb`):
- how the arguments are normalised;
- how `taggable?`, `tag_types` and `tag_scope` are written on the first call and on later calls.

Files:

| file | content |
|---|---|
| `options.dfy` | `Option` |
| `text.dfy` | Ruby 1.9 `strip`, Rails `blank?`, ASCII `downcase`, and the case-insensitive `=` and `LIKE '%x%'` of the database |
| `seqs.dfy` | `select`/`reject` as a stable filter, and `uniq` |
| `tags.dfy` | the `Tag` record, `==`, `to_s`, and the read scopes, each as a filter over the rows in row order |
| `tag_store.dfy` | the writes |
| `tag_examples.dfy` | the situations of `spec/acts_as_taggable_on/tag_spec.rb`, derived from the general lemmas |
| `taggable.dfy` | the declaration, as a specification function `Apply` and a class `ModelClass` whose fields are the class attributes |

`tag_store.dfy` gives each write twice:
- as a function on a snapshot of the table (`Insert`, `CreateAll`, `FindOrCreateOne`, `FindOrCreateAll`);
- as a method of the `Store` class, which holds the rows and the id counter and is proved to follow that function.

Throughout, the model assumes a database whose `=` and `LIKE` compare names after folding the ASCII letters A-Z to lower case and nothing else (see `Text.SameName` under "## Left out" for how real collations differ).
- `Tag#comparable_name` is `String#downcase` on ASCII.
- The uniqueness validation compares names exactly, which is the Rails default (`case_sensitive: true`).
- An unsaved tag has no id.
- The first saved row gets id 1.
- `.first` returns the first matching row in row order.

Three consequences of the code, which the model reproduces:
- Uniqueness is checked on the exact stripped name within the exact scope, not case-insensitively, so one batch can create both "Foo" and "foo".
- A blank name does not raise: `create_scoped_tag` returns the unsaved tag, and the other names of a batch are still created.
- With "awesome" already stored, `["  awesome ", " epic      "]` adds one row, as `spec/acts_as_taggable_on/tag_spec.rb:110-114` expects.

## Model

| member | source | states |
|---|---|---|
| Text.TrimLeftMeaning | lib/acts_as_taggable_on/tag.rb:76 | the left half of `strip` keeps a suffix, drops only whitespace, and what it keeps does not start with whitespace |
| Text.TrimRightMeaning | lib/acts_as_taggable_on/tag.rb:76 | the right half of `strip` keeps a prefix, drops only whitespace or NUL, and what it keeps does not end with either |
| Text.Strip | lib/acts_as_taggable_on/tag.rb:76 | `name.strip` never lengthens the name and leaves it with no leading whitespace and no trailing whitespace or NUL; its content is fixed by StripShape and StripPadding |
| Text.Blank | lib/acts_as_taggable_on/tag.rb:14 | Rails' `blank?` behind `validates_presence_of`: every character is ASCII whitespace, so the empty name is blank; StripBlankIffEmpty ties it to `strip` |
| Text.StripBlankIffEmpty | lib/acts_as_taggable_on/tag.rb:14 | after `name.strip`, the presence validation fails exactly on the empty name |
| Text.StripShape | lib/acts_as_taggable_on/tag.rb:76 | a stripped name is a substring of the original with no padding at either end |
| Text.StripIdempotent | lib/acts_as_taggable_on/tag.rb:76 | stripping a stored name again changes nothing |
| Text.StripPadding | lib/acts_as_taggable_on/tag.rb:76 | `strip` removes exactly the leading whitespace and the trailing whitespace or NUL around the text |
| Text.Downcase | lib/acts_as_taggable_on/tag.rb:102-104 | `comparable_name` keeps the length and lowercases each character, touching only A-Z |
| Text.DowncaseIdempotent | lib/acts_as_taggable_on/tag.rb:102-104 | a comparable name is its own comparable name |
| Text.DowncaseAppend | lib/acts_as_taggable_on/tag.rb:102-104 | downcasing commutes with concatenation |
| Text.SameName | lib/acts_as_taggable_on/tag.rb:26 | the database's `name = ?` and `name LIKE ?` (as at `tag.rb:31` and `tag.rb:36`): equal after folding A-Z to lower case, with `%` and `_` literal; its relation to `LIKE '%x%'` is SameNameContains |
| Text.NameContains | lib/acts_as_taggable_on/tag.rb:41 | the database's `name LIKE '%x%'` (as at `tag.rb:46`): the lowercased query occurs in the lowercased name; SameNameContains and NameLacksChar give its two directions |
| Text.SameNameContains | lib/acts_as_taggable_on/tag.rb:41 | a name that `named` matches is also matched by the `'%name%'` pattern of `named_like` |
| Text.NameLacksChar | lib/acts_as_taggable_on/tag.rb:41 | `LIKE '%x%'` fails when a character of the query occurs in the name in neither case |
| Seqs.Filter | lib/acts_as_taggable_on/tag.rb:63-66 | `select`/`reject`: the result is not longer than the input and holds exactly the kept elements |
| Seqs.FilterFilter | lib/acts_as_taggable_on/tag.rb:27 | a second `where` on a relation equals one filter on both conditions |
| Seqs.Uniq | lib/acts_as_taggable_on/acts_as_taggable_on.rb:36 | `uniq` holds exactly the elements of its input, each once |
| Seqs.UniqOrder | lib/acts_as_taggable_on/acts_as_taggable_on.rb:36 | `uniq` lists the elements in the order of their first occurrence |
| Seqs.UniqNoDups | lib/acts_as_taggable_on/acts_as_taggable_on.rb:36 | `uniq` of a list without duplicates is that list |
| Seqs.UniqAppendPrefix | lib/acts_as_taggable_on/acts_as_taggable_on.rb:36 | `(a + b).uniq` starts with `a.uniq` |
| Tags.TagEquals | lib/acts_as_taggable_on/tag.rb:84-86 | `==`: the other tag is the same saved record, or has the same name; its meaning is proved in TagEqualsMeaning and StoredEqualityIsIdentity |
| Tags.ToS | lib/acts_as_taggable_on/tag.rb:88-90 | `to_s` is the tag's name; used in TagEqualsMeaning and EqualsTagWithSameName |
| Tags.TagEqualsMeaning | lib/acts_as_taggable_on/tag.rb:84-86 | tags with equal names are `==`; otherwise `==` holds only between records with the same saved id; `==` is reflexive and symmetric |
| Tags.WithTagScope | lib/acts_as_taggable_on/tag.rb:19 | with a scope, exactly the rows owned by it; without one, every row unchanged |
| Tags.ScopedFilter | lib/acts_as_taggable_on/tag.rb:27 | a name condition followed by `with_tag_scope` is one stable filter on both |
| Tags.Named | lib/acts_as_taggable_on/tag.rb:25-28 | exactly the rows whose name equals the argument case-insensitively, within the scope if one is given |
| Tags.NamedAny | lib/acts_as_taggable_on/tag.rb:30-33 | exactly the rows whose name equals one of the list case-insensitively, within the scope |
| Tags.NamedAnyEquals | lib/acts_as_taggable_on/tag.rb:35-38 | exactly the rows whose name equals one of the list case-insensitively, within the scope; because `=` and `LIKE` without wildcards are the one comparison `SameName` here, it is the same query as `named_any` |
| Tags.NamedLike | lib/acts_as_taggable_on/tag.rb:40-43 | exactly the rows whose name contains the argument case-insensitively, within the scope |
| Tags.NamedLikeAny | lib/acts_as_taggable_on/tag.rb:45-48 | exactly the rows whose name contains one of the list case-insensitively, within the scope |
| Tags.QueriesInRowOrder | lib/acts_as_taggable_on/tag.rb:25-48 | each query returns its rows in row order, as one filter of the table |
| Tags.QueriesNest | lib/acts_as_taggable_on/tag.rb:25-48 | `named` finds a subset of `named_like`; on one-element lists `named_any` is `named` and `named_like_any` is `named_like` |
| Tags.Flatten | lib/acts_as_taggable_on/tag.rb:57 | `[list].flatten` on one name or a nested array of names; its content is fixed by FlattenMeaning |
| Tags.FlattenMeaning | lib/acts_as_taggable_on/tag.rb:57 | `[list].flatten` wraps one name, keeps a flat array, replaces a nested array by its flattened elements, and splices sibling arrays left to right |
| TagStore.NameTaken | lib/acts_as_taggable_on/tag.rb:15 | the uniqueness validation fails: some row has exactly this name and exactly this scope (used in InsertOutcome) |
| TagStore.Passes | lib/acts_as_taggable_on/tag.rb:14-15 | both validations pass: the name is not blank and not taken in its scope (used in Insert and InsertOutcome) |
| TagStore.WellFormed | lib/acts_as_taggable_on/tag.rb:14-15 | what every table written through `save` satisfies: saved ids, increasing in row order and below the counter, present names, unique (name, scope); kept by InsertWellFormed, CreateAllWellFormed, FindOrCreateAllGrows and FindOrCreateOneWellFormed |
| TagStore.Insert | lib/acts_as_taggable_on/tag.rb:75-80 | the tag has the stripped name and the given scope; when saved, it is appended and the counter advances; when not, the table is unchanged |
| TagStore.InsertOutcome | lib/acts_as_taggable_on/tag.rb:75-80 | `create_scoped_tag` saves with the next id exactly when the stripped name is not empty and no row has that name in that scope; otherwise it returns the unsaved tag |
| TagStore.InsertWellFormed | lib/acts_as_taggable_on/tag.rb:14-15 | saving through the validations keeps ids increasing, names present, and (name, scope) unique |
| TagStore.CreateAll | lib/acts_as_taggable_on/tag.rb:68-70 | one returned tag per name, in order, each with the stripped name and the scope; old rows stay in place; at most one row is added per name |
| TagStore.CreateAllSnoc | lib/acts_as_taggable_on/tag.rb:68-70 | one more name runs one more `create_scoped_tag` on the table the shorter list left behind |
| TagStore.CreateAllWellFormed | lib/acts_as_taggable_on/tag.rb:68-70 | the `map` over the new names keeps the table well formed |
| TagStore.CreateAllSaved | lib/acts_as_taggable_on/tag.rb:68-70 | the rows added are exactly the returned tags that were saved, in returned order |
| TagStore.CreateAllAddsDistinct | lib/acts_as_taggable_on/tag.rb:68-70 | every added row is in the batch's scope and bears a stripped requested name; no two added rows share a name |
| TagStore.CreateAllCount | lib/acts_as_taggable_on/tag.rb:68-70 | the rows added are at most the distinct stripped names |
| TagStore.CreateAllIsolation | lib/acts_as_taggable_on/tag.rb:68-70 | creating in one scope leaves every other scope's rows as they were |
| TagStore.Known | lib/acts_as_taggable_on/tag.rb:64-65 | an existing tag has the same `comparable_name` as the name; what NewTagNamesAreMissing turns into "no row of the scope equals it" |
| TagStore.NewTagNames | lib/acts_as_taggable_on/tag.rb:63-66 | `reject` keeps exactly the names whose comparable name matches no existing tag's |
| TagStore.NewTagNamesAreMissing | lib/acts_as_taggable_on/tag.rb:61-66 | a name goes to `create_scoped_tag` exactly when no row in the lookup's scope equals it case-insensitively |
| TagStore.FindOrCreateAll | lib/acts_as_taggable_on/tag.rb:56-73 | the batch resolver keeps every old row in place, returns only tags within the scope, and returns `[]` without writing on an empty list; what it returns is fixed by FindOrCreateAllExisting, NewTagNamesAreMissing, CreateAllSaved and CreateAllAddsDistinct |
| TagStore.FindOrCreateAllEmpty | lib/acts_as_taggable_on/tag.rb:57-59 | an empty flattened list returns `[]` and writes nothing |
| TagStore.FindOrCreateAllExisting | lib/acts_as_taggable_on/tag.rb:61-72 | the result starts with exactly the scope's rows that equal a requested name case-insensitively, in row order |
| TagStore.FindOrCreateAllCreated | lib/acts_as_taggable_on/tag.rb:63-72 | after the existing tags come the results of `create_scoped_tag` on the missing names, and the table is what those calls leave |
| TagStore.FindOrCreateAllCoversNames | lib/acts_as_taggable_on/tag.rb:56-73 | every requested name is answered by a returned tag: an existing row equal to it case-insensitively, or a tag with its stripped form |
| TagStore.FindOrCreateAllGrows | lib/acts_as_taggable_on/tag.rb:56-73 | the table stays well formed, old rows stay in place, and no more rows are added than tags returned |
| TagStore.FindOrCreateAllIsolation | lib/acts_as_taggable_on/tag.rb:56-73 | `with_tag_scope` of any other scope is unchanged by the call |
| TagStore.FindOrCreateOne | lib/acts_as_taggable_on/tag.rb:52-54 | the single resolver returns a tag within the scope and writes at most the one row it returns; when it writes nothing, it returns a stored row or the unsaved stripped tag; which one is fixed by FindOrCreateOneFirstMatch and FindOrCreateOneNoMatch |
| TagStore.FindOrCreateOneFirstMatch | lib/acts_as_taggable_on/tag.rb:52-54 | when some row of the scope contains the name, the first such row is returned and nothing is written |
| TagStore.FindOrCreateOneNoMatch | lib/acts_as_taggable_on/tag.rb:52-54 | when no row of the scope contains the name, the result is that of `create_scoped_tag` |
| TagStore.FindOrCreateOneFindsExact | lib/acts_as_taggable_on/tag.rb:52-54 | a stored exact match (any case) means nothing is created; the returned row contains the name but may be a longer one earlier in row order |
| TagStore.FindOrCreateOneWellFormed | lib/acts_as_taggable_on/tag.rb:52-54 | the single lookup keeps the table well formed and adds at most one row |
| TagStore.StoredEqualityIsIdentity | lib/acts_as_taggable_on/tag.rb:84-86 | within one scope of a well-formed table, `==` between stored rows holds only for the row itself |
| TagStore.Store.constructor | spec/schema.rb:15-19 | an empty tags table whose first id is 1 |
| TagStore.Store.CreateScopedTag | lib/acts_as_taggable_on/tag.rb:75-80 | the returned tag and the new table are those of `Insert` on the old table; the table stays well formed |
| TagStore.Store.FindOrCreateWithLikeByName | lib/acts_as_taggable_on/tag.rb:52-54 | the returned tag and the new table are those of `FindOrCreateOne` |
| TagStore.Store.FindOrCreateAllWithLikeByName | lib/acts_as_taggable_on/tag.rb:56-73 | the loop over the new names returns the tags, and leaves the table, that `FindOrCreateAll` gives |
| TagExamples.FindByNameCaseInsensitive | spec/acts_as_taggable_on/tag_spec.rb:32-34 | looking up "AWESOME" returns the stored "awesome" tag and writes nothing |
| TagExamples.FindOrCreateAddsOne | spec/acts_as_taggable_on/tag_spec.rb:36-40 | looking up "epic" next to "awesome" creates it with the next id |
| TagExamples.FindOrCreateAllStrips | spec/acts_as_taggable_on/tag_spec.rb:110-114 | `["  awesome ", " epic      "]` returns tags named "awesome" and "epic" and adds one row |
| TagExamples.EmptyListReturnsNothing | spec/acts_as_taggable_on/tag_spec.rb:116-118 | the empty list returns no tags |
| TagExamples.NameIsRequired | spec/acts_as_taggable_on/tag_spec.rb:121-138 | an empty or all-blank name is not saved, and once the name is "something" the tag is saved |
| TagExamples.EqualsTagWithSameName | spec/acts_as_taggable_on/tag_spec.rb:140-148 | two unsaved tags with the same name are `==`, as are an unsaved and a saved one; `to_s` is the name |
| TagExamples.CaseVariantsBothCreated | lib/acts_as_taggable_on/tag.rb:61-72 | "Foo" and "foo" in one batch on an empty table both become rows |
| Taggable.FlattenArgs | lib/acts_as_taggable_on/acts_as_taggable_on.rb:29 | `flatten` leaves no nested array |
| Taggable.FlattenArgsNested | lib/acts_as_taggable_on/acts_as_taggable_on.rb:29 | a nested array is replaced by its own flattened elements, in order |
| Taggable.FlattenArgsLeaf | lib/acts_as_taggable_on/acts_as_taggable_on.rb:29 | any argument that is not an array is kept as it is |
| Taggable.FlattenArgsAppend | lib/acts_as_taggable_on/acts_as_taggable_on.rb:29 | flattening splices consecutive arrays one after the other |
| Taggable.FlattenArgsFlat | lib/acts_as_taggable_on/acts_as_taggable_on.rb:29 | a list without nested arrays is already flat |
| Taggable.Leaves | lib/acts_as_taggable_on/acts_as_taggable_on.rb:29 | after `flatten.compact` no argument is an array or nil |
| Taggable.LeavesAppend | lib/acts_as_taggable_on/acts_as_taggable_on.rb:29 | `flatten.compact` works argument by argument, left to right |
| Taggable.LeavesSingle | lib/acts_as_taggable_on/acts_as_taggable_on.rb:29 | nil is dropped, a symbol, string or hash is kept, and a nested array contributes its own leaves; with LeavesAppend this fixes the result, in order |
| Taggable.ToSym | lib/acts_as_taggable_on/acts_as_taggable_on.rb:33 | `to_sym`: a symbol keeps its name, a string becomes the symbol of its text, and anything else (a hash) has none; ToSyms lifts it to the list |
| Taggable.ToSyms | lib/acts_as_taggable_on/acts_as_taggable_on.rb:33 | `map(&:to_sym)` succeeds exactly when every element has `to_sym`, and then maps each element in place |
| Taggable.HasOptions | lib/acts_as_taggable_on/acts_as_taggable_on.rb:31 | `tag_types[-1].kind_of?(Hash)`: the list is non-empty and its last element is a hash |
| Taggable.TypeArgs | lib/acts_as_taggable_on/acts_as_taggable_on.rb:31 | what `slice!(-1)` leaves: the list without its trailing hash, or the list unchanged; NormaliseResult gives its length and elements |
| Taggable.OptionsOf | lib/acts_as_taggable_on/acts_as_taggable_on.rb:31 | the trailing hash `slice!(-1)` returns, or `{}`; NormaliseResult states it as the options |
| Taggable.Normalise | lib/acts_as_taggable_on/acts_as_taggable_on.rb:29-33 | succeeds exactly when no type argument left after the options are split off is a hash; the options are the trailing hash or `{}`, and there is one type per remaining argument |
| Taggable.NormaliseSucceeds | lib/acts_as_taggable_on/acts_as_taggable_on.rb:29-33 | normalisation raises exactly when an options hash stands before the last argument |
| Taggable.NormaliseResult | lib/acts_as_taggable_on/acts_as_taggable_on.rb:29-33 | the options are the trailing hash or `{}`; the types are the names of the remaining arguments, in order |
| Taggable.ScopeOption | lib/acts_as_taggable_on/acts_as_taggable_on.rb:37 | `options[:scope]` (also at line 42): the value under `:scope`, or nil when absent; ApplyScope writes it into `tag_scope` |
| Taggable.Apply | lib/acts_as_taggable_on/acts_as_taggable_on.rb:28-43 | a call succeeds exactly when normalisation does, and then makes the class taggable with exactly the old types (if it was taggable already) and the new ones; ApplyFirstCall, ApplyLaterCall and ApplyScope fix the order and the scope |
| Taggable.ApplyScope | lib/acts_as_taggable_on/acts_as_taggable_on.rb:35-43 | success depends only on the arguments; after it the class is taggable and `tag_scope` is this call's `options[:scope]` |
| Taggable.ApplyFirstCall | lib/acts_as_taggable_on/acts_as_taggable_on.rb:38-43 | on the first call `tag_types` becomes exactly the normalised types, duplicates included |
| Taggable.ApplyLaterCall | lib/acts_as_taggable_on/acts_as_taggable_on.rb:35-37 | on a later call `tag_types` is `(old + new).uniq`: no duplicates, exactly the old and new types, in first-occurrence order; when the old list has no duplicates, it stays in front unchanged (a first call such as `:a, :a` stores duplicates, and then only the membership and order parts apply) |
| Taggable.ApplyRepeat | lib/acts_as_taggable_on/acts_as_taggable_on.rb:35-37 | repeating a call on a taggable class changes nothing |
| Taggable.ActsAsTaggableFirst | lib/acts_as_taggable_on/acts_as_taggable_on.rb:14-16 | `acts_as_taggable` on a fresh class gives `tag_types == [:tags]` and no scope |
| Taggable.DocumentedCall | lib/acts_as_taggable_on/acts_as_taggable_on.rb:24-26 | `:languages, :skills, :scope => :community` then `[:skills, nil, :tags]` gives `[:languages, :skills, :tags]` and clears the scope |
| Taggable.ModelClass.constructor | lib/acts_as_taggable_on/acts_as_taggable_on.rb:3-5 | a class starts out not taggable, with no types and no scope |
| Taggable.ModelClass.ActsAsTaggableOn | lib/acts_as_taggable_on/acts_as_taggable_on.rb:28-43 | succeeds exactly when `Apply` does and then holds its configuration; a call that raises changes nothing |
| Taggable.ModelClass.ActsAsTaggable | lib/acts_as_taggable_on/acts_as_taggable_on.rb:14-16 | has the effect of `acts_as_taggable_on :tags` |

## Left out

- SQL generation, indexes and concurrent writers are not modelled; the queries are modelled as filters over the rows. The code has no unique index (the index at `spec/schema.rb:21` is not unique) and no retry on a racing insert, so uniqueness holds only for one writer at a time.
- Tags.NamedLike: `%` and `_` inside a name or query are taken literally. The `LIKE` patterns of `named`, `named_any`, `named_like` and `named_like_any` would treat them as wildcards.
- Tags.NamedAnyEquals: is equal to `named_any` only under a case-insensitive collation. On PostgreSQL `ILIKE` stays case-insensitive but `=` is case-sensitive; that database is not modelled.
- Tags.NamedAny: requires a non-empty list. An empty list gives an empty SQL condition, whose meaning depends on the Rails version. No modelled operation calls it.
- Tags.NamedAnyEquals: requires a non-empty list too, for the same reason; its one caller (`tag.rb:61`) runs after the empty-list return at `tag.rb:59`.
- Tags.NamedLikeAny: requires a non-empty list too, for the same reason; no modelled operation calls it.
- Tags.WithTagScope: the owner's type is compared as a stored string. Rails writes the base class of a single-table-inheritance owner into `scoped_type`, while `with_tag_scope` filters on `tag_scope.class.name`; subclass owners are not modelled.
- TagStore.Insert: a failed `save` is modelled as an unsaved tag returned to the caller, as the code does: a blank name does not raise.
- TagStore.CreateAll: names that differ only in case are not deduplicated before creation, as in the code; TagExamples.CaseVariantsBothCreated shows the outcome.
- `Tag#count` (`tag.rb:92-94`) reads a computed SQL column; it is not modelled.
- `like_operator` and `using_postgresql?` are represented by the one case-insensitive comparison, for both `LIKE` and `ILIKE`.
- The associations `taggings`, `scoped` and `base_tags`, `attr_accessible`, the pre-Rails-3 backports, and the `include` of the Core, Collection, Cache, Ownership and Related modules are wiring to code that is not part of this model.
- The Ruby 1.8 `mb_chars` branch of `comparable_name` is not modelled; downcasing is ASCII only.
- Taggable.ModelClass.ActsAsTaggableOn: `write_inheritable_attribute` and `class_inheritable_reader` are modelled as plain fields of one class; inheritance of those attributes by subclasses is not modelled.
- Taggable.Arg: arguments other than symbols, strings, nil, hashes with symbol or string values, and arrays are not modelled. An option value of `nil` is not modelled either.
- TagStore.Store.CreateScopedTag: requires a well-formed table (`Valid`). The constructor and every method of `Store` keep it, so only rows written by other means are excluded. The same holds for the other two methods of `Store`.
- Tags.NameArg: the names passed to `find_or_create_all_with_like_by_name` are strings only. In the code a `nil` in the list survives `flatten` and makes `comparable_name` (`tag.rb:64`, `tag.rb:103`) raise `NoMethodError`, and a Symbol reaches `name.strip` (`tag.rb:76`) and raises too; neither error is modelled.
- Text.SameName: folds only the ASCII letters A-Z. A MySQL `_ci` collation also folds accented and other non-ASCII letters (`'é' = 'e'`). Before MySQL 8.0 its `=` also ignores trailing spaces while `LIKE` does not. With "awesome" stored, such a database finds that row for `find_or_create_all_with_like_by_name("awesome ")` at `tag.rb:61`; the model does not. Text.NameContains has the same ASCII-only folding.
