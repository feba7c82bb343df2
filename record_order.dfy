/** arrSort (script.js:196-209), the comparator processResponse sorts the records of sonarr and
    radarr with. The locale-aware `localeCompare` is the host's collation and is a parameter,
    `collate`, here. */
module RecordOrder {
  import opened Wrappers
  import Sorting

  /** The title fields arrSort looks at, in the order it tries them. */
  datatype Key = SortTitle | CleanTitle | TitleSlug | Title

  const Keys: seq<Key> := [SortTitle, CleanTitle, TitleSlug, Title]

  /** An element of the decoded array.
      - An object has an identity `ref` (two objects are `===` exactly when they are the same
        object) and the four title fields, each absent (None) or a string.
      - A nested array is of type "object" too and has an identity `ref`, but none of the title
        fields; `text` is its string form, the comma-joined string forms of its elements.
      - A string, number or boolean is a primitive, represented by its string form. */
  datatype Record =
    | Object(ref: nat, sortTitle: Option<string>, cleanTitle: Option<string>,
             titleSlug: Option<string>, title: Option<string>)
    | List(ref: nat, text: string)
    | Primitive(text: string)

  function Field(r: Record, k: Key): Option<string>
    requires r.Object?
  {
    match k
    case SortTitle => r.sortTitle
    case CleanTitle => r.cleanTitle
    case TitleSlug => r.titleSlug
    case Title => r.title
  }

  /** A field is truthy when present and not the empty string. */
  predicate Truthy(v: Option<string>)
  {
    v.Some? && v.value != ""
  }

  predicate SharedOn(a: Record, b: Record, k: Key)
    requires a.Object? && b.Object?
  {
    Truthy(Field(a, k)) && Truthy(Field(b, k))
  }

  /** Index of the first key of `keys` that is truthy on both records; |keys| when there is none. */
  function FirstShared(a: Record, b: Record, keys: seq<Key>): (i: nat)
    requires a.Object? && b.Object?
    ensures i <= |keys|
    ensures i < |keys| ==> SharedOn(a, b, keys[i])
    ensures forall j :: 0 <= j < i ==> !SharedOn(a, b, keys[j])
  {
    if keys == [] then 0
    else if SharedOn(a, b, keys[0]) then 0
    else 1 + FirstShared(a, b, keys[1..])
  }

  /** ToString of a record, what the default sort compares: "[object Object]" for an object
      (whose `toString` is the one it inherits), the given string form for a nested array, and the
      text of a primitive. An object with a `toString` member of its own is not represented. */
  function SortString(r: Record): string
  {
    match r
    case Object(_, _, _, _, _) => "[object Object]"
    case List(_, text) => text
    case Primitive(text) => text
  }

  /** The UTF-16 code units of a string, in which the host compares strings. */
  function CodeUnits(s: string): seq<int>
  {
    if s == [] then []
    else
      var c := s[0] as int;
      (if c < 0x10000 then [c] else [0xD800 + (c - 0x10000) / 0x400, 0xDC00 + (c - 0x10000) % 0x400])
      + CodeUnits(s[1..])
  }

  /** The host's `<` on strings: a proper prefix comes first, otherwise the first differing code
      unit decides. */
  predicate CodeUnitLess(x: seq<int>, y: seq<int>)
  {
    if y == [] then false
    else if x == [] then true
    else if x[0] != y[0] then x[0] < y[0]
    else CodeUnitLess(x[1..], y[1..])
  }

  /** `x` comes strictly before `y` in the default sort order (neither is undefined). */
  predicate DefaultLess(x: Record, y: Record)
  {
    CodeUnitLess(CodeUnits(SortString(x)), CodeUnits(SortString(y)))
  }

  /** `===`: the same object, the same array, or primitives with the same string. */
  predicate StrictEquals(x: Record, y: Record)
  {
    match (x, y)
    case (Object(r1, _, _, _, _), Object(r2, _, _, _, _)) => r1 == r2
    case (List(r1, _), List(r2, _)) => r1 == r2
    case (Primitive(s1), Primitive(s2)) => s1 == s2
    case _ => false
  }

  /** `[x, y].sort()`: the default sort is stable, so `y` moves first only when it is strictly
      less. */
  function DefaultSortPair(x: Record, y: Record): seq<Record>
  {
    if DefaultLess(y, x) then [y, x] else [x, y]
  }

  /** The fallback of arrSort: sort `[a, b]` and `[b, a]` by default and look at what comes first. */
  function Fallback(a: Record, b: Record): int
  {
    if StrictEquals(DefaultSortPair(a, b)[0], b) then 1
    else if StrictEquals(DefaultSortPair(b, a)[0], a) then -1
    else 0
  }

  /** arrSort: for two objects, the collation of the first title field truthy on both; otherwise
      the default-sort fallback. */
  function ArrSort(a: Record, b: Record, collate: (string, string) -> int): int
  {
    if a.Object? && b.Object? && FirstShared(a, b, Keys) < |Keys| then
      var k := Keys[FirstShared(a, b, Keys)];
      collate(Field(a, k).value, Field(b, k).value)
    else Fallback(a, b)
  }

  /** The comparator passed to sort. */
  function Comparator(collate: (string, string) -> int): (Record, Record) -> int
  {
    (a, b) => ArrSort(a, b, collate)
  }

  /** Key case: when the key at index `i` is the first of sortTitle, cleanTitle, titleSlug, title
      that is truthy on both objects, arrSort is the collation of the two values of that key. */
  lemma ArrSortKeyCase(a: Record, b: Record, collate: (string, string) -> int, i: nat)
    requires a.Object? && b.Object? && i < |Keys|
    requires SharedOn(a, b, Keys[i])
    requires forall j :: 0 <= j < i ==> !SharedOn(a, b, Keys[j])
    ensures ArrSort(a, b, collate) == collate(Field(a, Keys[i]).value, Field(b, Keys[i]).value)
  {
    var f := FirstShared(a, b, Keys);
    assert f == i;
  }

  /** Fallback case: with no key truthy on both (or a primitive among them), arrSort answers 1
      when b's string precedes a's or a === b, else -1 when a's precedes b's, else 0. */
  lemma ArrSortFallbackCase(a: Record, b: Record, collate: (string, string) -> int)
    requires a.Object? && b.Object? ==> forall k :: k in Keys ==> !SharedOn(a, b, k)
    ensures ArrSort(a, b, collate) ==
      if DefaultLess(b, a) || StrictEquals(a, b) then 1
      else if DefaultLess(a, b) then -1
      else 0
  {
    if a.Object? && b.Object? {
      var f := FirstShared(a, b, Keys);
      assert f == |Keys| by {
        forall j | 0 <= j < |Keys| ensures !SharedOn(a, b, Keys[j]) {
          assert Keys[j] in Keys;
        }
      }
    }
  }

  lemma {:induction false} CodeUnitLessIrreflexive(x: seq<int>)
    ensures !CodeUnitLess(x, x)
  {
    if x != [] {
      CodeUnitLessIrreflexive(x[1..]);
    }
  }

  /** Two distinct objects with no title field truthy on both compare as equal. */
  lemma DistinctObjectsWithoutKeyAreEqual(a: Record, b: Record, collate: (string, string) -> int)
    requires a.Object? && b.Object? && a.ref != b.ref
    requires forall k :: k in Keys ==> !SharedOn(a, b, k)
    ensures ArrSort(a, b, collate) == 0
  {
    ArrSortFallbackCase(a, b, collate);
    CodeUnitLessIrreflexive(CodeUnits("[object Object]"));
  }

  /** Two values that are not `===` but have the same string form (two distinct arrays `[1]`, say)
      compare as equal when no title decides. */
  lemma SameStringNotIdenticalIsZero(a: Record, b: Record, collate: (string, string) -> int)
    requires a.Object? && b.Object? ==> forall k :: k in Keys ==> !SharedOn(a, b, k)
    requires SortString(a) == SortString(b) && !StrictEquals(a, b)
    ensures ArrSort(a, b, collate) == 0
  {
    ArrSortFallbackCase(a, b, collate);
    CodeUnitLessIrreflexive(CodeUnits(SortString(a)));
  }

  /** The quirk of the fallback: a value compared with itself (the same object without a shared
      title, the same array, or equal primitives) answers 1, not 0. */
  lemma SelfComparisonIsOne(a: Record, collate: (string, string) -> int)
    requires a.Object? ==> forall k :: k in Keys ==> !Truthy(Field(a, k))
    ensures ArrSort(a, a, collate) == 1
  {
    ArrSortFallbackCase(a, a, collate);
  }

  /** The key fallback makes arrSort inconsistent: three objects can compare a < b (by
      sortTitle), b < c (by title) and yet a > c (by title), whatever collation ranks the titles
      that way. */
  lemma ArrSortCycle(collate: (string, string) -> int)
    requires collate("a", "b") < 0 && collate("b", "c") < 0 && collate("z", "c") > 0
    ensures var a, b, c := Object(1, Some("a"), None, None, Some("z")),
                           Object(2, Some("b"), None, None, Some("b")),
                           Object(3, None, None, None, Some("c"));
      ArrSort(a, b, collate) < 0 && ArrSort(b, c, collate) < 0 && ArrSort(a, c, collate) > 0
  {
    var a, b, c := Object(1, Some("a"), None, None, Some("z")),
                   Object(2, Some("b"), None, None, Some("b")),
                   Object(3, None, None, None, Some("c"));
    ArrSortKeyCase(a, b, collate, 0);
    ArrSortKeyCase(b, c, collate, 3);
    ArrSortKeyCase(a, c, collate, 3);
  }

  /** The host's collation as a total preorder on strings. */
  ghost predicate TotalPreorder(collate: (string, string) -> int)
  {
    && (forall x, y :: collate(x, y) > 0 ==> collate(y, x) < 0)
    && (forall x, y, z :: collate(x, y) <= 0 && collate(y, z) <= 0 ==> collate(x, z) <= 0)
  }

  predicate HasSortTitle(r: Record)
  {
    r.Object? && Truthy(r.sortTitle)
  }

  /** On objects that all carry a sortTitle, arrSort is the collation of the sortTitles, so it is
      consistent whenever the collation is a total preorder. */
  lemma SortTitleConsistent(records: seq<Record>, collate: (string, string) -> int)
    requires TotalPreorder(collate)
    requires forall r :: r in records ==> HasSortTitle(r)
    ensures Sorting.Consistent(Comparator(collate), records)
  {
    forall a, b | a in records && b in records
      ensures Comparator(collate)(a, b) == collate(a.sortTitle.value, b.sortTitle.value)
    {
      ArrSortKeyCase(a, b, collate, 0);
    }
  }

  /** Every record carries a sortTitle, and the sortTitles are in collation order. */
  ghost predicate InSortTitleOrder(records: seq<Record>, collate: (string, string) -> int)
  {
    forall i, j :: 0 <= i < j < |records| ==>
      && HasSortTitle(records[i]) && HasSortTitle(records[j])
      && collate(records[i].sortTitle.value, records[j].sortTitle.value) <= 0
  }

  /** A sequence ordered by arrSort whose records all carry a sortTitle is in sortTitle order. */
  lemma SortTitleOrder(sorted: seq<Record>, collate: (string, string) -> int)
    requires Sorting.Sorted(sorted, Comparator(collate))
    requires forall r :: r in sorted ==> HasSortTitle(r)
    ensures InSortTitleOrder(sorted, collate)
  {
    forall i, j | 0 <= i < j < |sorted|
      ensures && HasSortTitle(sorted[i]) && HasSortTitle(sorted[j])
              && collate(sorted[i].sortTitle.value, sorted[j].sortTitle.value) <= 0
    {
      assert sorted[i] in sorted && sorted[j] in sorted;
      assert Comparator(collate)(sorted[i], sorted[j]) <= 0;
      ArrSortKeyCase(sorted[i], sorted[j], collate, 0);
    }
  }

  /** Sorting records that all carry a sortTitle with arrSort, under a total preorder collation,
      gives a permutation of them in sortTitle order. */
  lemma SortBySortTitle(records: seq<Record>, collate: (string, string) -> int)
    requires TotalPreorder(collate)
    requires forall r :: r in records ==> HasSortTitle(r)
    ensures var sorted := Sorting.InsertionSort(records, Comparator(collate));
      multiset(sorted) == multiset(records) && InSortTitleOrder(sorted, collate)
  {
    var sorted := Sorting.InsertionSort(records, Comparator(collate));
    SortTitleConsistent(records, collate);
    Sorting.SortPermutation(records, Comparator(collate));
    Sorting.SortSorted(records, Comparator(collate), records);
    forall r | r in sorted ensures HasSortTitle(r) {
      assert r in multiset(sorted);
    }
    SortTitleOrder(sorted, collate);
  }
}
