/**
 * Issue-tracker data as the scripts see it, field-name resolution
 * (`getFieldIDs`) and paginated issue collection (`getAllIssues`).
 */
module Tracker {
  import opened Wrappers

  /** An entry of the tracker's field list. */
  datatype Field = Field(id: string, name: string)

  datatype Comment = Comment(id: string, body: string)

  /**
   * A field value: JSON null, a text, the `comment` field's thread, or an
   * object with a `name` (the `resolution` field).
   */
  datatype FieldValue = Null | Text(text: string) | Thread(comments: seq<Comment>) | Named(name: string)

  datatype Issue = Issue(id: string, key: string, fields: map<string, FieldValue>)

  /** The page size of every search request. */
  const PageSize: nat := 128

  /** The search endpoint: (query, offset, page size, fields) to one page of issues. */
  type Search = (string, nat, nat, set<string>) -> seq<Issue>

  // ---------------------------------------------------------------- field ids

  predicate IsFieldId(fields: seq<Field>, x: string) {
    exists i :: 0 <= i < |fields| && fields[i].id == x
  }

  /** `dict((f['name'], f['id']) for f in fields)`: a later field of the same name wins. */
  function NameIndex(fields: seq<Field>): (index: map<string, string>)
    decreases |fields|
  {
    if |fields| == 0 then map[]
    else NameIndex(fields[..|fields| - 1])[fields[|fields| - 1].name := fields[|fields| - 1].id]
  }

  lemma {:induction false} NameIndexLast(fields: seq<Field>, name: string)
    ensures name in NameIndex(fields) <==> exists i :: 0 <= i < |fields| && fields[i].name == name
    ensures name in NameIndex(fields) ==>
      exists i :: 0 <= i < |fields| && fields[i].name == name && NameIndex(fields)[name] == fields[i].id
        && forall j :: i < j < |fields| ==> fields[j].name != name
    decreases |fields|
  {
    if |fields| > 0 {
      var init := fields[..|fields| - 1];
      NameIndexLast(init, name);
      if fields[|fields| - 1].name != name && name in NameIndex(fields) {
        var i :| 0 <= i < |init| && init[i].name == name && NameIndex(init)[name] == init[i].id
          && forall j :: i < j < |init| ==> init[j].name != name;
        assert fields[i] == init[i];
      }
      if exists i :: 0 <= i < |fields| && fields[i].name == name {
        var i :| 0 <= i < |fields| && fields[i].name == name;
        if i < |init| {
          assert init[i] == fields[i];
        }
      }
    }
  }

  /** What one requested name becomes: itself if it is an id, else the id of the field so named. */
  function ResolveName(fields: seq<Field>, name: string): Option<string> {
    if IsFieldId(fields, name) then Some(name)
    else if name in NameIndex(fields) then Some(NameIndex(fields)[name])
    else None
  }

  /** The requested names that resolve, in request order. */
  function ResolveNames(fields: seq<Field>, rawNames: seq<string>): seq<string>
    decreases |rawNames|
  {
    if |rawNames| == 0 then []
    else
      var init := ResolveNames(fields, rawNames[..|rawNames| - 1]);
      match ResolveName(fields, rawNames[|rawNames| - 1])
      case Some(x) => init + [x]
      case None => init
  }

  /**
   * Resolution keeps at most one entry per requested name, every entry is a
   * known field id, and nothing is dropped when every name is known.
   */
  lemma {:induction false} ResolveNamesSound(fields: seq<Field>, rawNames: seq<string>)
    ensures |ResolveNames(fields, rawNames)| <= |rawNames|
    ensures forall x :: x in ResolveNames(fields, rawNames) ==> IsFieldId(fields, x)
    ensures (forall k :: 0 <= k < |rawNames| ==> IsFieldId(fields, rawNames[k])) ==>
      ResolveNames(fields, rawNames) == rawNames
    decreases |rawNames|
  {
    if |rawNames| > 0 {
      var init := rawNames[..|rawNames| - 1];
      var name := rawNames[|rawNames| - 1];
      ResolveNamesSound(fields, init);
      if !IsFieldId(fields, name) && name in NameIndex(fields) {
        NameIndexLast(fields, name);
      }
      assert init + [name] == rawNames;
    }
  }

  /** `getFieldIDs`: resolve every requested name against the field list. */
  method GetFieldIDs(fields: seq<Field>, rawNames: seq<string>) returns (filtered: seq<string>)
    ensures filtered == ResolveNames(fields, rawNames)
  {
    var names := NameIndex(fields);
    var ids := set f | f in fields :: f.id;
    filtered := [];
    for k := 0 to |rawNames|
      invariant filtered == ResolveNames(fields, rawNames[..k])
    {
      var name := rawNames[k];
      assert rawNames[..k + 1][..k] == rawNames[..k];
      if name in ids {
        filtered := filtered + [name];
      } else if name in names {
        filtered := filtered + [names[name]];
      }
    }
    assert rawNames[..|rawNames|] == rawNames;
  }

  // --------------------------------------------------------------- pagination

  /**
   * The issues collected from offset `|acc|` on: each request asks for the
   * page at the number of issues gathered so far, and the first empty page
   * ends the collection. `None` when more than `fuel` requests would be needed.
   */
  function Collect(search: Search, query: string, fieldSet: set<string>, acc: seq<Issue>, fuel: nat): Option<seq<Issue>>
    decreases fuel
  {
    if fuel == 0 then None
    else
      var page := search(query, |acc|, PageSize, fieldSet);
      if |page| == 0 then Some(acc) else Collect(search, query, fieldSet, acc + page, fuel - 1)
  }

  /** `getAllIssues`, its unbounded loop cut off after `fuel` requests. */
  method GetAllIssues(search: Search, query: string, fieldSet: set<string>, fuel: nat) returns (issues: Option<seq<Issue>>)
    ensures issues == Collect(search, query, fieldSet, [], fuel)
    ensures issues.Some? ==> |search(query, |issues.value|, PageSize, fieldSet)| == 0
  {
    var acc: seq<Issue> := [];
    var requests := 0;
    while requests < fuel
      invariant requests <= fuel
      invariant Collect(search, query, fieldSet, [], fuel) == Collect(search, query, fieldSet, acc, fuel - requests)
      decreases fuel - requests
    {
      var found := search(query, |acc|, PageSize, fieldSet);
      ghost var before := acc;
      acc := acc + found;
      if |found| == 0 {
        assert acc == before;
        return Some(acc);
      }
      requests := requests + 1;
    }
    return None;
  }

  lemma {:induction false} CollectStops(search: Search, query: string, fieldSet: set<string>, acc: seq<Issue>, fuel: nat)
    ensures Collect(search, query, fieldSet, acc, fuel).Some? ==>
      |search(query, |Collect(search, query, fieldSet, acc, fuel).value|, PageSize, fieldSet)| == 0
    decreases fuel
  {
    if fuel > 0 && |search(query, |acc|, PageSize, fieldSet)| > 0 {
      CollectStops(search, query, fieldSet, acc + search(query, |acc|, PageSize, fieldSet), fuel - 1);
    }
  }

  /** A tracker that serves the slices of a fixed result list, `all[offset..offset + size]`. */
  ghost predicate ServesSlices(search: Search, query: string, fieldSet: set<string>, all: seq<Issue>) {
    forall offset: nat {:trigger search(query, offset, PageSize, fieldSet)} ::
      search(query, offset, PageSize, fieldSet) ==
        if offset >= |all| then [] else all[offset..if offset + PageSize <= |all| then offset + PageSize else |all|]
  }

  /**
   * Against such a tracker, collection with enough requests (one per page
   * plus the final empty one) returns the whole list, in order, the last
   * non-empty page included.
   */
  lemma {:induction false} CollectAll(search: Search, query: string, fieldSet: set<string>, all: seq<Issue>, done: nat, fuel: nat)
    requires ServesSlices(search, query, fieldSet, all)
    requires done <= |all| && fuel >= 1 && (fuel - 1) * PageSize >= |all| - done
    ensures Collect(search, query, fieldSet, all[..done], fuel) == Some(all)
    decreases fuel
  {
    var page := search(query, done, PageSize, fieldSet);
    assert done < |all| ==> fuel >= 2 by {
      if fuel == 1 { assert (fuel - 1) * PageSize == 0; }
    }
    assert (fuel - 2) * PageSize == (fuel - 1) * PageSize - PageSize;
    assert |all[..done]| == done;
    if done == |all| {
      assert all[..done] == all;
    } else {
      var next := if done + PageSize <= |all| then done + PageSize else |all|;
      assert page == all[done..next];
      assert all[..done] + page == all[..next];
      CollectAll(search, query, fieldSet, all, next, fuel - 1);
    }
  }
}
