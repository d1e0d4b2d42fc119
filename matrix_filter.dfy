/** The two filters of index.js:88-96 over the changed directories: a flat
    list of entries filtered on their `service` field, or one group of a
    sliced table reduced to its keys that name a changed directory. */
module MatrixFilter {
  import opened Wrappers
  import opened JsArray

  /** An element of a flat matrix list. `Entry` is any value other than
      `null`: its `service` property when that is a string (`None` when it
      is absent or not a string), and the rest of the value, which the
      filter passes through untouched. `NullEntry` is a JSON `null`, on
      which destructuring `{service}` throws. */
  datatype Entry<P> =
    | Entry(service: Option<string>, payload: P)
    | NullEntry

  /** The callback `({service}) => uniqueDirs.includes(service)` on an
      element it does not throw on. */
  function ServiceChanged<P>(dirs: seq<string>): Entry<P> -> bool {
    (e: Entry<P>) => e.Entry? && e.service.Some? && e.service.value in dirs
  }

  /** Every element can be destructured: none is `null`. */
  predicate NoNullEntry<P>(list: seq<Entry<P>>) {
    forall i :: 0 <= i < |list| ==> list[i].Entry?
  }

  /** Flat mode: `list.filter(({service}) => uniqueDirs.includes(service))`.
      The callback runs on every element, so one `null` element makes the
      whole call throw: `None`. */
  function FilterFlat<P>(list: seq<Entry<P>>, dirs: seq<string>): Option<seq<Entry<P>>> {
    if NoNullEntry(list) then Some(Filter(list, ServiceChanged(dirs))) else None
  }

  /** The callback `(key) => uniqueDirs.includes(key)`. */
  function KeyChanged(dirs: seq<string>): string -> bool {
    (key: string) => key in dirs
  }

  /** Sliced mode: `Object.keys(list[filterBy]).filter((key) => uniqueDirs.includes(key))`.
      `properties` maps each name whose lookup `list[name]` is not
      `undefined` to `Object.keys` of the value found there, or to `None`
      when that value is `null`. `Object.keys` throws on `undefined` and on
      `null`: `None`. */
  function FilterSliced(properties: map<string, Option<seq<string>>>, filterBy: string,
                        dirs: seq<string>): Option<seq<string>>
  {
    if filterBy !in properties || properties[filterBy].None? then None
    else Some(Filter(properties[filterBy].value, KeyChanged(dirs)))
  }

  /** Flat mode throws exactly when some element is `null`. Otherwise it
      keeps, in their order, every copy of each entry whose service is a
      changed directory, and nothing else; in particular no entry without a
      service, and nothing at all when no directory changed. */
  lemma FilterFlatSpec<P>(list: seq<Entry<P>>, dirs: seq<string>)
    ensures FilterFlat(list, dirs).Some? <==> forall i :: 0 <= i < |list| ==> list[i].Entry?
    ensures FilterFlat(list, dirs).Some? ==>
      var r := FilterFlat(list, dirs).value;
      IsSubsequence(r, list) &&
      (forall e :: multiset(r)[e] ==
         if e.Entry? && e.service.Some? && e.service.value in dirs then multiset(list)[e] else 0) &&
      (forall e :: e in r <==> e in list && e.Entry? && e.service.Some? && e.service.value in dirs) &&
      (dirs == [] ==> r == [])
  {
    FilterIsSubsequence(list, ServiceChanged(dirs));
    FilterMultiplicity(list, ServiceChanged(dirs));
    FilterMembership(list, ServiceChanged(dirs));
  }

  /** Sliced mode throws exactly when the group is undefined or `null`.
      Otherwise it keeps, in key order, every copy of each key that is a
      changed directory and nothing else, so keys that are distinct, as
      `Object.keys` returns them, stay distinct. */
  lemma FilterSlicedSpec(properties: map<string, Option<seq<string>>>, filterBy: string,
                         dirs: seq<string>)
    ensures FilterSliced(properties, filterBy, dirs).None? <==>
      filterBy !in properties || properties[filterBy].None?
    ensures FilterSliced(properties, filterBy, dirs).Some? ==>
      var keys, r := properties[filterBy].value, FilterSliced(properties, filterBy, dirs).value;
      IsSubsequence(r, keys) &&
      (forall k :: multiset(r)[k] == if k in dirs then multiset(keys)[k] else 0) &&
      (forall k :: k in r <==> k in keys && k in dirs) &&
      (NoDuplicates(keys) ==> NoDuplicates(r))
  {
    if filterBy in properties && properties[filterBy].Some? {
      var keys := properties[filterBy].value;
      FilterIsSubsequence(keys, KeyChanged(dirs));
      FilterMultiplicity(keys, KeyChanged(dirs));
      FilterMembership(keys, KeyChanged(dirs));
      if NoDuplicates(keys) {
        FilterNoDuplicates(keys, KeyChanged(dirs));
      }
    }
  }
}
