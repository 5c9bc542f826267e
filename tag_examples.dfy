/** Concrete instances of the model on the situations described in
    spec/acts_as_taggable_on/tag_spec.rb, each derived from the general
    lemmas rather than by evaluation. */
module TagExamples {
  import opened Options
  import opened Text
  import opened Seqs
  import opened Tags
  import opened TagStore

  /** A table holding the saved tag "awesome" with id 1 and no scope. */
  function AwesomeTable(): Table {
    Table([Tag(Some(1), "awesome", None)], 2)
  }

  lemma AwesomeTableWellFormed()
    ensures WellFormed(AwesomeTable())
  {
    assert !IsSpace(AwesomeTable().rows[0].name[0]);
  }

  /** Looking up "AWESOME" returns the stored "awesome" tag and writes nothing. */
  lemma FindByNameCaseInsensitive()
    ensures FindOrCreateOne(AwesomeTable(), "AWESOME", None) == Created(Tag(Some(1), "awesome", None), AwesomeTable())
  {
    var tb := AwesomeTable();
    assert Downcase("AWESOME") == "awesome";
    assert Downcase(tb.rows[0].name) == "awesome";
    assert "awesome" <= "awesome";
    FindOrCreateOneFirstMatch(tb, "AWESOME", None, 0);
  }

  /** Looking up "epic" in that table adds one row. */
  lemma FindOrCreateAddsOne()
    ensures var c := FindOrCreateOne(AwesomeTable(), "epic", None);
      c.tag == Tag(Some(2), "epic", None) && |c.table.rows| == 2
  {
    var tb := AwesomeTable();
    EpicNotInAwesome();
    FindOrCreateOneNoMatch(tb, "epic", None);
    StripEpic();
    InsertOutcome(tb, "epic", None);
  }

  lemma EpicNotInAwesome()
    ensures forall t :: t in AwesomeTable().rows ==> !NameContains(t.name, "epic")
  {
    var column := AwesomeTable().rows[0].name;
    assert forall i :: 0 <= i < |column| ==> Lower(column[i]) != Lower("epic"[1]);
    NameLacksChar(column, "epic", 1);
  }

  lemma StripEpic()
    ensures Strip("epic") == "epic"
  {
    assert TrimLeft("epic") == "epic";
    assert TrimRight("epic") == "epic";
  }

  /** `["  awesome ", " epic      "]` against the table holding "awesome":
      the names come back stripped, and only "epic" adds a row (the padded
      name matches no row exactly, and its stripped form fails the
      uniqueness validation). */
  lemma FindOrCreateAllStrips()
    ensures var b := FindOrCreateAll(AwesomeTable(), PaddedList(), None);
      |b.tags| == 2 && b.tags[0].name == "awesome" && b.tags[1].name == "epic" &&
      |b.table.rows| == |AwesomeTable().rows| + 1
  {
    var tb := AwesomeTable();
    var names := PaddedNamesList();
    PaddedListFlattens();
    NoPaddedRowExists();
    FindOrCreateAllCreated(tb, PaddedList(), None);
    PaddedNames();
    CreateTwo(tb, names[0], names[1], None);
    InsertOutcome(tb, names[0], None);
    assert NameTaken(tb.rows, "awesome", None) by {
      assert tb.rows[0] in tb.rows;
    }
    InsertOutcome(tb, names[1], None);
  }

  function PaddedNamesList(): seq<string> {
    ["  awesome ", " epic      "]
  }

  function PaddedList(): NameArg {
    Names([Name("  awesome "), Name(" epic      ")])
  }

  lemma PaddedListFlattens()
    ensures Flatten(PaddedList()) == PaddedNamesList()
  {
    var names := PaddedNamesList();
    FlattenPlain(names);
    assert PaddedList().items == seq(|names|, i requires 0 <= i < |names| => Name(names[i]));
  }

  /** No row equals a padded name, so both names go on to be created. */
  lemma NoPaddedRowExists()
    ensures var names := PaddedNamesList();
      var existing := NamedAnyEquals(AwesomeTable().rows, names, None);
      existing == [] && NewTagNames(names, existing) == names
  {
    var names := PaddedNamesList();
    var rows := AwesomeTable().rows;
    forall t | t in rows ensures !EqualsAny(t, names) {
      assert |Downcase(t.name)| == 7;
    }
    var existing := NamedAnyEquals(rows, names, None);
    assert existing == [];
    FilterAll(names, NotKnown(existing));
  }

  lemma PaddedNames()
    ensures Strip("  awesome ") == "awesome"
    ensures Strip(" epic      ") == "epic"
  {
    assert "  awesome " == "  " + "awesome" + " ";
    StripPadding("  ", "awesome", " ");
    assert " epic      " == " " + "epic" + "      ";
    StripPadding(" ", "epic", "      ");
  }

  /** One creation. */
  lemma CreateOne(tb: Table, a: string, scope: Option<ScopeRef>)
    ensures CreateAll(tb, [a], scope) == Batch([Insert(tb, a, scope).tag], Insert(tb, a, scope).table)
  {
    var one := [a];
    assert one[..0] == [];
    assert CreateAll(tb, [], scope) == Batch([], tb);
    var c0 := Insert(tb, a, scope);
    assert CreateAll(tb, one, scope) == Batch([] + [c0.tag], c0.table);
  }

  /** Two creations in a row, one after the other. */
  lemma CreateTwo(tb: Table, a: string, b: string, scope: Option<ScopeRef>)
    ensures var c0 := Insert(tb, a, scope);
      var c1 := Insert(c0.table, b, scope);
      CreateAll(tb, [a, b], scope) == Batch([c0.tag, c1.tag], c1.table)
  {
    var two := [a, b];
    assert two[..1] == [a];
    CreateOne(tb, a, scope);
    var c0 := Insert(tb, a, scope);
    var c1 := Insert(c0.table, b, scope);
    assert CreateAll(tb, two, scope) == Batch([c0.tag] + [c1.tag], c1.table);
  }

  /** Names that differ only in case are both created by one batch on an
      empty table: the lookup finds nothing, the reject keeps both, and the
      uniqueness validation compares names exactly. */
  lemma CaseVariantsBothCreated()
    ensures var b := FindOrCreateAll(Table([], 1), Names([Name("Foo"), Name("foo")]), None);
      b.tags == [Tag(Some(1), "Foo", None), Tag(Some(2), "foo", None)] &&
      b.table == Table(b.tags, 3)
  {
    var tb := Table([], 1);
    var list := Names([Name("Foo"), Name("foo")]);
    var names := ["Foo", "foo"];
    FlattenPlain(names);
    assert list.items == seq(|names|, i requires 0 <= i < |names| => Name(names[i]));
    var existing := NamedAnyEquals(tb.rows, names, None);
    assert existing == [];
    FilterAll(names, NotKnown(existing));
    FindOrCreateAllCreated(tb, list, None);
    CaseVariantsInsert();
    CreateTwo(tb, "Foo", "foo", None);
  }

  lemma CaseVariantsInsert()
    ensures Insert(Table([], 1), "Foo", None) == Created(Tag(Some(1), "Foo", None), Table([Tag(Some(1), "Foo", None)], 2))
    ensures Insert(Table([Tag(Some(1), "Foo", None)], 2), "foo", None) ==
      Created(Tag(Some(2), "foo", None), Table([Tag(Some(1), "Foo", None), Tag(Some(2), "foo", None)], 3))
  {
    assert Strip("Foo") == "Foo" by {
      assert TrimLeft("Foo") == "Foo";
      assert TrimRight("Foo") == "Foo";
    }
    assert Strip("foo") == "foo" by {
      assert TrimLeft("foo") == "foo";
      assert TrimRight("foo") == "foo";
    }
    InsertOutcome(Table([], 1), "Foo", None);
    assert "Foo" != "foo" by {
      assert "Foo"[0] != "foo"[0];
    }
    InsertOutcome(Table([Tag(Some(1), "Foo", None)], 2), "foo", None);
  }

  /** The empty list returns no tags. */
  lemma EmptyListReturnsNothing()
    ensures FindOrCreateAll(AwesomeTable(), Names([]), None) == Batch([], AwesomeTable())
  {
    FindOrCreateAllEmpty(AwesomeTable(), Names([]));
  }

  /** A tag without a name is not saved; once it is named "something" it is. */
  lemma NameIsRequired()
    ensures Insert(AwesomeTable(), "", None).tag.id.None?
    ensures Insert(AwesomeTable(), "   ", None).tag.id.None?
    ensures Insert(AwesomeTable(), "something", None).tag.id.Some?
  {
    InsertOutcome(AwesomeTable(), "", None);
    assert Strip("   ") == "";
    InsertOutcome(AwesomeTable(), "   ", None);
    assert Strip("something") == "something" by {
      assert TrimLeft("something") == "something";
      assert TrimRight("something") == "something";
    }
    assert !NameTaken(AwesomeTable().rows, "something", None) by {
      assert "something"[0] != "awesome"[0];
    }
    InsertOutcome(AwesomeTable(), "something", None);
  }

  /** Two unsaved tags with the same name are equal, as is an unsaved tag
      and a saved one with that name; `to_s` is the name. */
  lemma EqualsTagWithSameName()
    ensures TagEquals(Tag(None, "awesome", None), Tag(None, "awesome", None))
    ensures TagEquals(Tag(None, "awesome", None), Tag(Some(1), "awesome", None))
    ensures ToS(Tag(None, "cool", None)) == "cool"
  {
  }
}
