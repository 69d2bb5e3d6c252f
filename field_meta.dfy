/**
 * Field metadata of the nested list's model (`list.fields`, the `listFields`
 * dictionary): per field name, its type and, for selection fields, the
 * (code, caption) options.
 */
module FieldMeta {
  import opened JsValues

  datatype FieldDef = FieldDef(ftype: string, selection: Option<seq<(Value, Value)>>)

  /** The metadata dictionary as its entries, in the object's key order. */
  type Fields = seq<(string, FieldDef)>

  /** `fields[name]`: the definition stored under `name`, if any. */
  function Lookup(fields: Fields, name: string): (r: Option<FieldDef>)
    ensures r.Some? <==> exists i :: 0 <= i < |fields| && fields[i].0 == name
    ensures r.Some? ==> exists i :: 0 <= i < |fields| && fields[i] == (name, r.value)
  {
    if fields == [] then None
    else if fields[0].0 == name then Some(fields[0].1)
    else
      var r := Lookup(fields[1..], name);
      assert forall i :: 1 <= i < |fields| ==> fields[i] == fields[1..][i - 1];
      r
  }

  /** The types the default search accepts as free text. */
  const Searchable: seq<string> := ["char", "text", "html"]

  predicate IsSearchableType(t: string) {
    t in Searchable
  }
}
