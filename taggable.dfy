/** The class-level configuration of lib/acts_as_taggable_on/acts_as_taggable_on.rb:
    `acts_as_taggable_on(*tag_types)` normalises its arguments, then either
    sets `tag_types` and `tag_scope` and makes the class taggable (first
    call) or merges the new types into the old ones (later calls);
    `acts_as_taggable` is `acts_as_taggable_on :tags`. */
module Taggable {
  import opened Options
  import opened Seqs

  /** One argument as Ruby passes it: nil, a symbol, a string, an options
      hash (symbol keys, symbol or string values) or a nested array. */
  datatype Arg = Nil | Sym(name: string) | Str(text: string) | Hash(options: map<string, string>) | List(items: seq<Arg>)

  /** `flatten`: nested arrays are spliced in place, left to right; a hash is
      not an array and stays whole. */
  function FlattenArgs(xs: seq<Arg>): (r: seq<Arg>)
    ensures forall i :: 0 <= i < |r| ==> !r[i].List?
  {
    if xs == [] then []
    else
      (match xs[0]
       case List(ys) => FlattenArgs(ys)
       case _ => [xs[0]]) + FlattenArgs(xs[1..])
  }

  /** Flattening splices one array after the other. */
  lemma {:induction false} FlattenArgsAppend(xs: seq<Arg>, ys: seq<Arg>)
    ensures FlattenArgs(xs + ys) == FlattenArgs(xs) + FlattenArgs(ys)
  {
    if xs == [] {
      assert xs + ys == ys;
    } else {
      assert (xs + ys)[1..] == xs[1..] + ys;
      FlattenArgsAppend(xs[1..], ys);
    }
  }

  /** A list without nested arrays is already flat. */
  lemma {:induction false} FlattenArgsFlat(xs: seq<Arg>)
    requires forall i :: 0 <= i < |xs| ==> !xs[i].List?
    ensures FlattenArgs(xs) == xs
  {
    if xs != [] {
      FlattenArgsFlat(xs[1..]);
    }
  }

  /** A nested array is replaced by its own flattened elements, in order. */
  lemma FlattenArgsNested(ys: seq<Arg>)
    ensures FlattenArgs([List(ys)]) == FlattenArgs(ys)
  {
    assert [List(ys)][1..] == [];
  }

  /** Any other argument is kept as it is. */
  lemma FlattenArgsLeaf(a: Arg)
    requires !a.List?
    ensures FlattenArgs([a]) == [a]
  {
    assert [a][1..] == [];
  }

  function NotNil(): Arg -> bool {
    (a: Arg) => !a.Nil?
  }

  /** `tag_types.to_a.flatten.compact`. */
  function Leaves(args: seq<Arg>): (r: seq<Arg>)
    ensures forall i :: 0 <= i < |r| ==> !r[i].List? && !r[i].Nil?
  {
    var flat := FlattenArgs(args);
    var r := Filter(flat, NotNil());
    assert forall i :: 0 <= i < |r| ==> r[i] in flat;
    r
  }

  /** `flatten.compact` works argument by argument, left to right. */
  lemma LeavesAppend(xs: seq<Arg>, ys: seq<Arg>)
    ensures Leaves(xs + ys) == Leaves(xs) + Leaves(ys)
  {
    FlattenArgsAppend(xs, ys);
    FilterAppend(FlattenArgs(xs), FlattenArgs(ys), NotNil());
  }

  /** A nil argument is dropped, a symbol, string or hash is kept, and a
      nested array contributes its own leaves in order. */
  lemma LeavesSingle(a: Arg, ys: seq<Arg>)
    ensures Leaves([Nil]) == []
    ensures !a.List? && !a.Nil? ==> Leaves([a]) == [a]
    ensures Leaves([List(ys)]) == Leaves(ys)
  {
    FlattenArgsLeaf(Nil);
    FilterSingle(Nil, NotNil());
    if !a.List? && !a.Nil? {
      FlattenArgsLeaf(a);
      FilterSingle(a, NotNil());
    }
    FlattenArgsNested(ys);
  }

  /** `to_sym` on a symbol or a string; a hash has no `to_sym`. */
  function ToSym(a: Arg): Option<string> {
    match a
    case Sym(n) => Some(n)
    case Str(t) => Some(t)
    case _ => None
  }

  /** `tag_types.map(&:to_sym)`, which raises (`None`) on the first element
      without `to_sym`. */
  function ToSyms(xs: seq<Arg>): (r: Option<seq<string>>)
    ensures r.Some? <==> forall i :: 0 <= i < |xs| ==> ToSym(xs[i]).Some?
    ensures r.Some? ==> |r.value| == |xs| && forall i :: 0 <= i < |xs| ==> r.value[i] == ToSym(xs[i]).value
  {
    if xs == [] then Some([])
    else
      match (ToSym(xs[0]), ToSyms(xs[1..]))
      case (Some(h), Some(t)) => Some([h] + t)
      case _ => None
  }

  /** The argument list after normalisation: the type names and the options. */
  datatype Normalised = Normalised(types: seq<string>, options: map<string, string>)

  /** `tag_types[-1].kind_of?(Hash)`: the last argument is an options hash
      (on an empty list `[-1]` is nil, which is not). */
  predicate HasOptions(leaves: seq<Arg>) {
    leaves != [] && leaves[|leaves| - 1].Hash?
  }

  /** What `slice!(-1)` leaves behind. */
  function TypeArgs(leaves: seq<Arg>): seq<Arg> {
    if HasOptions(leaves) then leaves[..|leaves| - 1] else leaves
  }

  /** The hash `slice!(-1)` returns, or `{}`. */
  function OptionsOf(leaves: seq<Arg>): map<string, string> {
    if HasOptions(leaves) then leaves[|leaves| - 1].options else map[]
  }

  /** Lines 29-33: flatten, drop nils, split off a trailing hash as the
      options, turn the rest into symbols. */
  function Normalise(args: seq<Arg>): (r: Option<Normalised>)
    ensures var types := TypeArgs(Leaves(args));
      r.Some? <==> forall i :: 0 <= i < |types| ==> !types[i].Hash?
    ensures r.Some? ==> |r.value.types| == |TypeArgs(Leaves(args))| && r.value.options == OptionsOf(Leaves(args))
  {
    var leaves := Leaves(args);
    match ToSyms(TypeArgs(leaves))
    case Some(syms) => Some(Normalised(syms, OptionsOf(leaves)))
    case None => None
  }

  /** Normalisation succeeds exactly when no hash stands before the last
      argument. */
  lemma NormaliseSucceeds(args: seq<Arg>)
    ensures var leaves := Leaves(args);
      Normalise(args).Some? <==> forall i :: 0 <= i < |leaves| - 1 ==> !leaves[i].Hash?
  {
    var leaves := Leaves(args);
    var types := TypeArgs(leaves);
    assert forall i :: 0 <= i < |types| ==> types[i] == leaves[i];
    if forall i :: 0 <= i < |leaves| - 1 ==> !leaves[i].Hash? {
      assert forall i :: 0 <= i < |types| ==> ToSym(types[i]).Some?;
    }
  }

  /** On success the options are the trailing hash (or empty), and the types
      are the names of the other arguments, in order. */
  lemma NormaliseResult(args: seq<Arg>)
    requires Normalise(args).Some?
    ensures var leaves := Leaves(args);
      var r := Normalise(args).value;
      r.options == (if HasOptions(leaves) then leaves[|leaves| - 1].options else map[]) &&
      |r.types| == (if HasOptions(leaves) then |leaves| - 1 else |leaves|) &&
      forall i :: 0 <= i < |r.types| ==> r.types[i] == ToSym(leaves[i]).value
  {
    var leaves := Leaves(args);
    var types := TypeArgs(leaves);
    assert forall i :: 0 <= i < |types| ==> types[i] == leaves[i];
  }

  /** `options[:scope]`, nil when absent. */
  function ScopeOption(options: map<string, string>): Option<string> {
    if "scope" in options then Some(options["scope"]) else None
  }

  /** The class-level state: `taggable?`, `tag_types` and `tag_scope`. */
  datatype Config = Config(taggable: bool, tagTypes: seq<string>, tagScope: Option<string>)

  /** A class that has never called `acts_as_taggable_on`. */
  const Untouched := Config(false, [], None)

  /** The effect of one `acts_as_taggable_on(*args)` call; `None` when it
      raises before writing anything. */
  function Apply(c: Config, args: seq<Arg>): (r: Option<Config>)
    ensures r.Some? <==> Normalise(args).Some?
    ensures r.Some? ==> r.value.taggable
    ensures r.Some? ==> forall x {:trigger x in r.value.tagTypes} ::
      x in r.value.tagTypes <==> (c.taggable && x in c.tagTypes) || x in Normalise(args).value.types
  {
    match Normalise(args)
    case None => None
    case Some(n) =>
      if c.taggable then Some(Config(true, Uniq(c.tagTypes + n.types), ScopeOption(n.options)))
      else Some(Config(true, n.types, ScopeOption(n.options)))
  }

  /** Whether a call succeeds depends only on its arguments; a successful
      call always leaves the class taggable, with `tag_scope` set from this
      call's options alone. */
  lemma ApplyScope(c: Config, args: seq<Arg>)
    ensures Apply(c, args).Some? <==> Normalise(args).Some?
    ensures Apply(c, args).Some? ==>
      Apply(c, args).value.taggable &&
      Apply(c, args).value.tagScope == ScopeOption(Normalise(args).value.options)
  {
  }

  /** On the first call `tag_types` is exactly the normalised types,
      duplicates included. */
  lemma ApplyFirstCall(c: Config, args: seq<Arg>)
    requires !c.taggable && Normalise(args).Some?
    ensures Apply(c, args).Some? && Apply(c, args).value.tagTypes == Normalise(args).value.types
  {
  }

  /** On a later call `tag_types` is `(old + new).uniq`: no duplicates, every
      old and every new type, nothing else, in first-occurrence order, and a
      duplicate-free old list stays in front. */
  lemma ApplyLaterCall(c: Config, args: seq<Arg>)
    requires c.taggable && Normalise(args).Some?
    ensures var types := Normalise(args).value.types;
      var merged := Apply(c, args).value.tagTypes;
      var all := c.tagTypes + types;
      Apply(c, args).Some? &&
      NoDups(merged) &&
      (forall x :: x in merged <==> x in c.tagTypes || x in types) &&
      (forall i, j :: 0 <= i < j < |merged| ==> FirstIndex(all, merged[i]) < FirstIndex(all, merged[j])) &&
      (NoDups(c.tagTypes) ==> |c.tagTypes| <= |merged| && merged[..|c.tagTypes|] == c.tagTypes)
  {
    var types := Normalise(args).value.types;
    UniqOrder(c.tagTypes + types);
    if NoDups(c.tagTypes) {
      UniqAppendPrefix(c.tagTypes, types);
      UniqNoDups(c.tagTypes);
    }
  }

  /** Repeating a call once the class is taggable changes nothing. */
  lemma ApplyRepeat(c: Config, args: seq<Arg>)
    requires c.taggable && Apply(c, args).Some?
    ensures Apply(Apply(c, args).value, args) == Apply(c, args)
  {
    var types := Normalise(args).value.types;
    var merged := Uniq(c.tagTypes + types);
    UniqAbsorbs(merged, types);
  }

  /** `uniq` of a duplicate-free list followed by elements it already holds
      is that list. */
  lemma {:induction false} UniqAbsorbs(u: seq<string>, b: seq<string>)
    requires NoDups(u)
    requires forall x :: x in b ==> x in u
    ensures Uniq(u + b) == u
    decreases |b|
  {
    if b == [] {
      assert u + b == u;
      UniqNoDups(u);
    } else {
      var b' := b[..|b| - 1];
      UniqAbsorbs(u, b');
      assert (u + b)[..|u + b| - 1] == u + b';
      assert b[|b| - 1] in b;
    }
  }

  /** `acts_as_taggable` is `acts_as_taggable_on :tags`: on an untouched
      class it yields `tag_types == [:tags]` and no scope. */
  lemma ActsAsTaggableFirst()
    ensures Apply(Untouched, [Sym("tags")]) == Some(Config(true, ["tags"], None))
  {
    assert FlattenArgs([Sym("tags")]) == [Sym("tags")];
    FilterSingle(Sym("tags"), NotNil());
    assert Leaves([Sym("tags")]) == [Sym("tags")];
    assert [Sym("tags")][1..] == [];
    var none: seq<string> := [];
    assert ["tags"] + none == ["tags"];
    assert ToSyms([Sym("tags")]) == Some(["tags"]);
    assert Normalise([Sym("tags")]) == Some(Normalised(["tags"], map[]));
  }

  /** `acts_as_taggable_on :languages, :skills, :scope => :community` on an
      untouched class, then `acts_as_taggable_on [:skills, nil, :tags]`:
      the second call keeps the first two types, appends only the new one,
      and drops the scope it does not repeat. */
  lemma DocumentedCall()
    ensures Apply(Untouched, ExampleArgs()) == Some(Config(true, ["languages", "skills"], Some("community")))
    ensures Apply(Config(true, ["languages", "skills"], Some("community")), LaterArgs())
      == Some(Config(true, ["languages", "skills", "tags"], None))
  {
    ExampleArgsNormalise();
    LaterArgsNormalise();
    UniqMergeExample();
  }

  lemma ExampleArgsLeaves()
    ensures Leaves(ExampleArgs()) == ExampleArgs()
  {
    var args := ExampleArgs();
    FlattenArgsFlat(args);
    FilterAll(args, NotNil());
  }

  lemma ExampleArgsNormalise()
    ensures Normalise(ExampleArgs()) == Some(Normalised(["languages", "skills"], map["scope" := "community"]))
  {
    var args := ExampleArgs();
    ExampleArgsLeaves();
    assert args[..2] == [Sym("languages"), Sym("skills")];
    ToSymsTwo("languages", "skills");
  }

  /** Two symbols become their two names. */
  lemma ToSymsTwo(a: string, b: string)
    ensures ToSyms([Sym(a), Sym(b)]) == Some([a, b])
  {
    var two := [Sym(a), Sym(b)];
    assert two[1..] == [Sym(b)];
    assert [Sym(b)][1..] == [];
    var none: seq<string> := [];
    assert ToSyms([Sym(b)]) == Some([b] + none);
    assert [b] + none == [b];
    assert ToSyms(two) == Some([a] + [b]);
    assert [a] + [b] == [a, b];
  }

  function LaterArgs(): seq<Arg> {
    [List([Sym("skills"), Nil, Sym("tags")])]
  }

  lemma LaterArgsFlatten()
    ensures FlattenArgs(LaterArgs()) == [Sym("skills"), Nil, Sym("tags")]
  {
    var later := LaterArgs();
    var inner := [Sym("skills"), Nil, Sym("tags")];
    assert later[1..] == [];
    assert FlattenArgs(later) == FlattenArgs(inner) + [];
    FlattenArgsFlat(inner);
  }

  lemma LaterArgsLeaves()
    ensures Leaves(LaterArgs()) == [Sym("skills"), Sym("tags")]
  {
    LaterArgsFlatten();
    var inner := [Sym("skills"), Nil, Sym("tags")];
    assert inner[1..] == [Nil, Sym("tags")];
    DropNil();
    assert Filter(inner, NotNil()) == [Sym("skills")] + [Sym("tags")];
  }

  lemma DropNil()
    ensures Filter([Nil, Sym("tags")], NotNil()) == [Sym("tags")]
  {
    var rest := [Nil, Sym("tags")];
    assert rest[1..] == [Sym("tags")];
    FilterSingle(Sym("tags"), NotNil());
    assert Filter(rest, NotNil()) == [] + [Sym("tags")];
  }

  lemma LaterArgsNormalise()
    ensures Normalise(LaterArgs()) == Some(Normalised(["skills", "tags"], map[]))
  {
    LaterArgsLeaves();
    var leaves := Leaves(LaterArgs());
    assert !leaves[|leaves| - 1].Hash?;
    ToSymsTwo("skills", "tags");
  }

  function ExampleArgs(): seq<Arg> {
    [Sym("languages"), Sym("skills"), Hash(map["scope" := "community"])]
  }

  lemma UniqMergeExample()
    ensures Uniq(["languages", "skills"] + ["skills", "tags"]) == ["languages", "skills", "tags"]
  {
    var before := ["languages", "skills"];
    var all := before + ["skills", "tags"];
    assert "languages" != "skills" && "tags" != "skills" && "tags" != "languages";
    UniqNoDups(before);
    assert all[..2] == before;
    assert all[..3] == before + ["skills"];
    assert all[..3][..2] == before;
    assert Uniq(all[..3]) == before;
    assert all[..3] == all[..|all| - 1];
  }

  /** A class that calls `acts_as_taggable_on`. */
  class ModelClass {
    var taggable: bool
    var tagTypes: seq<string>
    var tagScope: Option<string>

    function Current(): Config
      reads this
    {
      Config(taggable, tagTypes, tagScope)
    }

    /** `taggable?` is false until the first call. */
    constructor ()
      ensures Current() == Untouched
    {
      taggable := false;
      tagTypes := [];
      tagScope := None;
    }

    /** `acts_as_taggable_on(*args)`; `ok` is false when the call raises
      (a hash before the last argument has no `to_sym`). */
    method ActsAsTaggableOn(args: seq<Arg>) returns (ok: bool)
      modifies this
      ensures ok <==> Apply(old(Current()), args).Some?
      ensures ok ==> Current() == Apply(old(Current()), args).value
      ensures !ok ==> Current() == old(Current())
    {
      var types := Leaves(args);
      var options := map[];
      if |types| > 0 && types[|types| - 1].Hash? {
        options := types[|types| - 1].options;
        types := types[..|types| - 1];
      }
      var syms := ToSyms(types);
      if syms.None? {
        return false;
      }
      if taggable {
        tagTypes := Uniq(tagTypes + syms.value);
        tagScope := ScopeOption(options);
      } else {
        tagTypes := syms.value;
        tagScope := ScopeOption(options);
        taggable := true;
      }
      ok := true;
    }

    /** `acts_as_taggable`. */
    method ActsAsTaggable()
      modifies this
      ensures Apply(old(Current()), [Sym("tags")]).Some?
      ensures Current() == Apply(old(Current()), [Sym("tags")]).value
    {
      assert FlattenArgs([Sym("tags")]) == [Sym("tags")];
      FilterSingle(Sym("tags"), NotNil());
      var ok := ActsAsTaggableOn([Sym("tags")]);
    }
  }
}
