/**
 * The search definition synthesised when the nested model has no search view
 * of its own: one free-text `<field>` on a name-like textual field
 * (`_x2mBuildDefaultSearchArch`).
 */
module DefaultSearch {
  import opened JsValues
  import opened FieldMeta

  /** The conventional name-like fields, tried in this order. */
  const Preferred: seq<string> := ["name", "display_name", "subject", "title"]

  /** `fields[n] && searchable.includes(fields[n].type)`. */
  predicate SearchableIn(fields: Fields, n: string) {
    var f := Lookup(fields, n);
    f.Some? && IsSearchableType(f.value.ftype)
  }

  /** The first of Preferred[i..] that is a searchable field of `fields`. */
  function FirstPreferred(fields: Fields, i: nat): Option<string>
    requires i <= |Preferred|
    decreases |Preferred| - i
  {
    if i == |Preferred| then None
    else if SearchableIn(fields, Preferred[i]) then Some(Preferred[i])
    else FirstPreferred(fields, i + 1)
  }

  /** The key of the first entry, in the order of the metadata's entries, whose type is searchable. */
  function FirstSearchableEntry(fields: Fields): Option<string> {
    if fields == [] then None
    else if IsSearchableType(fields[0].1.ftype) then Some(fields[0].0)
    else FirstSearchableEntry(fields[1..])
  }

  /** The field the synthesised search definition targets. */
  function DefaultSearchField(fields: Fields): string {
    match FirstPreferred(fields, 0)
    case Some(n) => n
    case None =>
      match FirstSearchableEntry(fields)
      case Some(n) => n
      case None => "name"
  }

  /** The search view markup for a single free-text field. */
  function SearchArch(n: string): string {
    "<search><field name=\"" + n + "\"/></search>"
  }

  /** Builds the default search view: a loop over the preferred names with an early exit, then a find over the entries. */
  method BuildDefaultSearchArch(fields: Fields) returns (arch: string)
    ensures arch == SearchArch(DefaultSearchField(fields))
  {
    var name: Option<string> := None;
    var i := 0;
    while i < |Preferred|
      invariant 0 <= i <= |Preferred|
      invariant name.None? ==> FirstPreferred(fields, 0) == FirstPreferred(fields, i)
      invariant name.Some? ==> name == FirstPreferred(fields, 0)
      decreases |Preferred| - i, if name.None? then 1 else 0
    {
      if SearchableIn(fields, Preferred[i]) {
        name := Some(Preferred[i]);
        break;
      }
      i := i + 1;
    }
    if name.None? {
      var j := 0;
      while j < |fields| && !IsSearchableType(fields[j].1.ftype)
        invariant 0 <= j <= |fields|
        invariant FirstSearchableEntry(fields) == FirstSearchableEntry(fields[j..])
      {
        assert fields[j..][1..] == fields[j + 1..];
        j := j + 1;
      }
      name := Some(if j < |fields| then fields[j].0 else "name");
    }
    arch := SearchArch(name.value);
  }

  // ---------------------------------------------------------------------------
  // What the choice means

  lemma {:induction false} FirstPreferredIsFirst(fields: Fields, i: nat, k: nat)
    requires i <= k < |Preferred|
    requires SearchableIn(fields, Preferred[k])
    requires forall j :: i <= j < k ==> !SearchableIn(fields, Preferred[j])
    ensures FirstPreferred(fields, i) == Some(Preferred[k])
    decreases k - i
  {
    if i < k {
      FirstPreferredIsFirst(fields, i + 1, k);
    }
  }

  lemma {:induction false} FirstPreferredNone(fields: Fields, i: nat)
    requires i <= |Preferred|
    requires forall j :: i <= j < |Preferred| ==> !SearchableIn(fields, Preferred[j])
    ensures FirstPreferred(fields, i) == None
    decreases |Preferred| - i
  {
    if i < |Preferred| {
      FirstPreferredNone(fields, i + 1);
    }
  }

  lemma {:induction false} FirstSearchableEntryIsFirst(fields: Fields, k: nat)
    requires k < |fields| && IsSearchableType(fields[k].1.ftype)
    requires forall j :: 0 <= j < k ==> !IsSearchableType(fields[j].1.ftype)
    ensures FirstSearchableEntry(fields) == Some(fields[k].0)
  {
    if k > 0 {
      FirstSearchableEntryIsFirst(fields[1..], k - 1);
    }
  }

  lemma {:induction false} FirstSearchableEntryNone(fields: Fields)
    requires forall j :: 0 <= j < |fields| ==> !IsSearchableType(fields[j].1.ftype)
    ensures FirstSearchableEntry(fields) == None
  {
    if fields != [] {
      FirstSearchableEntryNone(fields[1..]);
    }
  }

  /** A preferred name that is a textual field wins over every later preferred name and every other field. */
  lemma PreferredNameWins(fields: Fields, k: nat)
    requires k < |Preferred| && SearchableIn(fields, Preferred[k])
    requires forall j :: 0 <= j < k ==> !SearchableIn(fields, Preferred[j])
    ensures DefaultSearchField(fields) == Preferred[k]
  {
    FirstPreferredIsFirst(fields, 0, k);
  }

  /** Without a textual preferred name, the first textual entry in the metadata's entry order is chosen. */
  lemma FirstTextualFieldChosen(fields: Fields, k: nat)
    requires forall j :: 0 <= j < |Preferred| ==> !SearchableIn(fields, Preferred[j])
    requires k < |fields| && IsSearchableType(fields[k].1.ftype)
    requires forall j :: 0 <= j < k ==> !IsSearchableType(fields[j].1.ftype)
    ensures DefaultSearchField(fields) == fields[k].0
  {
    FirstPreferredNone(fields, 0);
    FirstSearchableEntryIsFirst(fields, k);
  }

  /** With no textual field at all the literal "name" is used, even though no such field exists. */
  lemma NameFallback(fields: Fields)
    requires forall j :: 0 <= j < |fields| ==> !IsSearchableType(fields[j].1.ftype)
    ensures DefaultSearchField(fields) == "name"
  {
    forall j | 0 <= j < |Preferred|
      ensures !SearchableIn(fields, Preferred[j])
    {
      var f := Lookup(fields, Preferred[j]);
    }
    FirstPreferredNone(fields, 0);
    FirstSearchableEntryNone(fields);
  }

  lemma {:induction false} FirstPreferredSound(fields: Fields, i: nat)
    requires i <= |Preferred|
    ensures FirstPreferred(fields, i).Some? ==> SearchableIn(fields, FirstPreferred(fields, i).value)
    decreases |Preferred| - i
  {
    if i < |Preferred| && !SearchableIn(fields, Preferred[i]) {
      FirstPreferredSound(fields, i + 1);
    }
  }

  lemma {:induction false} FirstSearchableEntrySound(fields: Fields)
    ensures FirstSearchableEntry(fields).Some? ==>
      exists j :: 0 <= j < |fields| && fields[j].0 == FirstSearchableEntry(fields).value
                  && IsSearchableType(fields[j].1.ftype)
  {
    if fields != [] && !IsSearchableType(fields[0].1.ftype) {
      FirstSearchableEntrySound(fields[1..]);
      if FirstSearchableEntry(fields[1..]).Some? {
        var j :| 0 <= j < |fields[1..]| && fields[1..][j].0 == FirstSearchableEntry(fields[1..]).value
                 && IsSearchableType(fields[1..][j].1.ftype);
        assert fields[j + 1] == fields[1..][j];
      }
    }
  }

  lemma {:induction false} FirstSearchableEntryNoneComplete(fields: Fields)
    requires FirstSearchableEntry(fields) == None
    ensures forall j :: 0 <= j < |fields| ==> !IsSearchableType(fields[j].1.ftype)
  {
    if fields != [] {
      FirstSearchableEntryNoneComplete(fields[1..]);
      assert forall j :: 1 <= j < |fields| ==> fields[j] == fields[1..][j - 1];
    }
  }

  /** The chosen field is a textual field of the model, or "name" when the model has none. */
  lemma DefaultFieldIsTextualOrName(fields: Fields)
    ensures var n := DefaultSearchField(fields);
      (exists j :: 0 <= j < |fields| && fields[j].0 == n && IsSearchableType(fields[j].1.ftype))
      || (n == "name" && forall j :: 0 <= j < |fields| ==> !IsSearchableType(fields[j].1.ftype))
  {
    var n := DefaultSearchField(fields);
    FirstPreferredSound(fields, 0);
    if FirstPreferred(fields, 0).Some? {
      assert SearchableIn(fields, n);
      var f := Lookup(fields, n);
      var j :| 0 <= j < |fields| && fields[j] == (n, f.value);
      assert fields[j].0 == n && IsSearchableType(fields[j].1.ftype);
    } else if FirstSearchableEntry(fields).Some? {
      FirstSearchableEntrySound(fields);
    } else {
      FirstSearchableEntryNoneComplete(fields);
    }
  }

  /**
   * A model with a "description" text field and a "code" char field and no
   * preferred name: the first textual field in entry order is "description".
   */
  lemma DescriptionChosenBeforeCode()
    ensures DefaultSearchField([("description", FieldDef("text", None)), ("code", FieldDef("char", None))]) == "description"
  {
    var fields := [("description", FieldDef("text", None)), ("code", FieldDef("char", None))];
    forall j | 0 <= j < |Preferred|
      ensures !SearchableIn(fields, Preferred[j])
    {
      var f := Lookup(fields, Preferred[j]);
    }
    FirstTextualFieldChosen(fields, 0);
  }
}
