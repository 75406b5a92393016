/**
 * The grouping stage: graphs, values and logs are filed into folders keyed
 * by the folder half of their names, and the folders are then sorted by
 * lower-cased name.
 */
module Folders {
  import opened Seqs
  import opened Input
  import opened Graphs
  import opened Order

  /** A folder: its name and the values, logs and graphs filed under it. */
  datatype Folder = Folder(name: string, table: seq<Value>, logs: seq<Log>, graphs: seq<Graph>)

  /** Anything that can be filed: the three kinds of input share one filing rule. */
  datatype Item = GraphItem(graph: Graph) | ValueItem(value: Value) | LogItem(log: Log)

  /** The folder an item belongs in. */
  function Origin(it: Item): string {
    match it
    case GraphItem(g) => g.nameFolder
    case ValueItem(v) => v.nameFolder
    case LogItem(l) => l.nameFolder
  }

  /** Files an item at the end of the folder's list for its kind. */
  function Push(f: Folder, it: Item): Folder {
    match it
    case GraphItem(g) => f.(graphs := f.graphs + [g])
    case ValueItem(v) => f.(table := f.table + [v])
    case LogItem(l) => f.(logs := f.logs + [l])
  }

  /** The number of items in a folder. */
  function Size(f: Folder): nat {
    |f.table| + |f.logs| + |f.graphs|
  }

  /** The number of items in all folders. */
  function Total(fs: seq<Folder>): nat {
    if fs == [] then 0 else Size(fs[0]) + Total(fs[1..])
  }

  /** The folder names, in list order. */
  function Names(fs: seq<Folder>): seq<string> {
    seq(|fs|, i requires 0 <= i < |fs| => fs[i].name)
  }

  /**
   * One step of filing: the item joins the first folder carrying its folder
   * name, or, when there is none, a new folder holding just this item is
   * added at the end.
   */
  function Place(fs: seq<Folder>, it: Item): seq<Folder> {
    var n := Origin(it);
    if n in Names(fs) then
      var i := FirstIndex(Names(fs), n);
      fs[i := Push(fs[i], it)]
    else
      fs + [Push(Folder(n, [], [], []), it)]
  }

  /**
   * Files one item by scanning the folders for a name match, as each of the
   * three labelled loops of the grouping stage does.
   */
  method PlaceItem(folders: seq<Folder>, item: Item) returns (placed: seq<Folder>)
    ensures placed == Place(folders, item)
  {
    var n := Origin(item);
    for j := 0 to |folders|
      invariant forall k :: 0 <= k < j ==> folders[k].name != n
    {
      if folders[j].name == n {
        assert Names(folders)[j] == n && n !in Names(folders)[..j];
        FirstIndexUnique(Names(folders), n, j);
        return folders[j := Push(folders[j], item)];
      }
    }
    return folders + [Push(Folder(n, [], [], []), item)];
  }

  /** The items in the order the grouping stage files them: graphs, then values, then logs. */
  function Items(graphs: seq<Graph>, values: seq<Value>, logs: seq<Log>): seq<Item> {
    seq(|graphs|, i requires 0 <= i < |graphs| => GraphItem(graphs[i])) +
    seq(|values|, i requires 0 <= i < |values| => ValueItem(values[i])) +
    seq(|logs|, i requires 0 <= i < |logs| => LogItem(logs[i]))
  }

  /** The folder names of the items, in filing order. */
  function Origins(items: seq<Item>): seq<string> {
    seq(|items|, i requires 0 <= i < |items| => Origin(items[i]))
  }

  /** The folders after filing `items` one by one into an empty list, before sorting. */
  function PlaceAll(items: seq<Item>): seq<Folder> {
    if items == [] then []
    else Place(PlaceAll(items[..|items| - 1]), items[|items| - 1])
  }

  /** The folders after filing `items` one by one into `fs`. */
  function PlaceFrom(fs: seq<Folder>, items: seq<Item>): seq<Folder> {
    if items == [] then fs
    else Place(PlaceFrom(fs, items[..|items| - 1]), items[|items| - 1])
  }

  /** Filing `a` and then `b` from nothing is filing `b` into the folders filed from `a`. */
  lemma {:induction false} PlaceAllAppend(a: seq<Item>, b: seq<Item>)
    ensures PlaceAll(a + b) == PlaceFrom(PlaceAll(a), b)
  {
    if b == [] {
      assert a + b == a;
    } else {
      var c := b[..|b| - 1];
      PlaceAllAppend(a, c);
      assert (a + b)[..|a + b| - 1] == a + c;
    }
  }

  /**
   * One labelled filing loop of the grouping stage: each item in turn is
   * filed by the folder scan.
   */
  method FileAll(folders: seq<Folder>, items: seq<Item>) returns (filed: seq<Folder>)
    ensures filed == PlaceFrom(folders, items)
  {
    filed := folders;
    for i := 0 to |items|
      invariant filed == PlaceFrom(folders, items[..i])
    {
      assert items[..i + 1][..i] == items[..i];
      filed := PlaceItem(filed, items[i]);
    }
    assert items[..|items|] == items;
  }

  /** The unsorted folder list the grouping stage builds. */
  function Grouping(graphs: seq<Graph>, values: seq<Value>, logs: seq<Log>): seq<Folder> {
    PlaceAll(Items(graphs, values, logs))
  }

  /**
   * Reference contents of the folder named `n`: every item of that folder,
   * in input order, filed into an initially empty folder.
   */
  function Gather(items: seq<Item>, n: string): (f: Folder)
    ensures f.name == n
  {
    if items == [] then Folder(n, [], [], [])
    else
      var f := Gather(items[..|items| - 1], n);
      if Origin(items[|items| - 1]) == n then Push(f, items[|items| - 1]) else f
  }

  /**
   * The filing invariant: one folder per distinct folder name, created in
   * order of first occurrence; each folder holds exactly the items of its
   * name in input order; no item is lost or repeated.
   */
  ghost predicate Grouped(fs: seq<Folder>, items: seq<Item>) {
    Names(fs) == Distinct(Origins(items)) &&
    (forall i :: 0 <= i < |fs| ==> fs[i] == Gather(items, fs[i].name)) &&
    Total(fs) == |items|
  }

  lemma {:induction false} TotalAppend(fs: seq<Folder>, f: Folder)
    ensures Total(fs + [f]) == Total(fs) + Size(f)
  {
    if fs != [] {
      assert (fs + [f])[1..] == fs[1..] + [f];
      TotalAppend(fs[1..], f);
    }
  }

  lemma {:induction false} TotalUpdate(fs: seq<Folder>, i: nat, f: Folder)
    requires i < |fs|
    ensures Total(fs[i := f]) == Total(fs) - Size(fs[i]) + Size(f)
  {
    if i > 0 {
      assert fs[i := f][1..] == fs[1..][i - 1 := f];
      TotalUpdate(fs[1..], i - 1, f);
    }
  }

  /** A folder name that no item carries gathers nothing. */
  lemma {:induction false} GatherAbsent(items: seq<Item>, n: string)
    requires n !in Origins(items)
    ensures Gather(items, n) == Folder(n, [], [], [])
  {
    if items != [] {
      var p := items[..|items| - 1];
      assert Origins(p) == Origins(items)[..|p|];
      assert Origins(items)[|p|] == Origin(items[|p|]);
      GatherAbsent(p, n);
    }
  }

  /** A folder name that some item carries gathers at least that item. */
  lemma {:induction false} GatherPresent(items: seq<Item>, n: string)
    requires n in Origins(items)
    ensures Size(Gather(items, n)) > 0
  {
    var p := items[..|items| - 1];
    if Origin(items[|items| - 1]) != n {
      assert Origins(p) == Origins(items)[..|p|];
      assert n in Origins(p);
      GatherPresent(p, n);
    }
  }

  /** Filing one more item keeps the invariant. */
  lemma PlaceStep(fs: seq<Folder>, items: seq<Item>, it: Item)
    requires Grouped(fs, items)
    ensures Grouped(Place(fs, it), items + [it])
  {
    var n := Origin(it);
    var o := Origins(items);
    var all := items + [it];
    assert all[..|items|] == items;
    assert Origins(all) == o + [n];
    assert (o + [n])[..|o|] == o;
    DistinctSpec(o);
    var fs' := Place(fs, it);
    if n in Names(fs) {
      var i := FirstIndex(Names(fs), n);
      assert Names(fs') == Names(fs);
      forall j | 0 <= j < |fs'| ensures fs'[j] == Gather(all, fs'[j].name) {
        if j != i {
          assert Names(fs)[j] != Names(fs)[i];
        }
      }
      TotalUpdate(fs, i, Push(fs[i], it));
    } else {
      assert Names(fs') == Names(fs) + [n];
      GatherAbsent(items, n);
      TotalAppend(fs, Push(Folder(n, [], [], []), it));
      forall j | 0 <= j < |fs'| ensures fs'[j] == Gather(all, fs'[j].name) {
        if j < |fs| {
          assert Names(fs)[j] != n;
        }
      }
    }
  }

  /** Filing every item from an empty list establishes the invariant. */
  lemma {:induction false} PlaceAllSpec(items: seq<Item>)
    ensures Grouped(PlaceAll(items), items)
  {
    if items != [] {
      var p := items[..|items| - 1];
      PlaceAllSpec(p);
      PlaceStep(PlaceAll(p), p, items[|items| - 1]);
      assert p + [items[|items| - 1]] == items;
    }
  }

  /** The graphs filed under `n`, in input order. */
  function GraphsIn(graphs: seq<Graph>, n: string): seq<Graph> {
    if graphs == [] then []
    else
      var g := graphs[|graphs| - 1];
      GraphsIn(graphs[..|graphs| - 1], n) + (if g.nameFolder == n then [g] else [])
  }

  /** The values filed under `n`, in input order. */
  function ValuesIn(values: seq<Value>, n: string): seq<Value> {
    if values == [] then []
    else
      var v := values[|values| - 1];
      ValuesIn(values[..|values| - 1], n) + (if v.nameFolder == n then [v] else [])
  }

  /** The logs filed under `n`, in input order. */
  function LogsIn(logs: seq<Log>, n: string): seq<Log> {
    if logs == [] then []
    else
      var l := logs[|logs| - 1];
      LogsIn(logs[..|logs| - 1], n) + (if l.nameFolder == n then [l] else [])
  }

  lemma {:induction false} GatherGraphs(graphs: seq<Graph>, n: string)
    ensures Gather(seq(|graphs|, i requires 0 <= i < |graphs| => GraphItem(graphs[i])), n) ==
            Folder(n, [], [], GraphsIn(graphs, n))
  {
    var items := seq(|graphs|, i requires 0 <= i < |graphs| => GraphItem(graphs[i]));
    if graphs != [] {
      var p := graphs[..|graphs| - 1];
      assert items[..|items| - 1] == seq(|p|, i requires 0 <= i < |p| => GraphItem(p[i]));
      GatherGraphs(p, n);
    }
  }

  lemma {:induction false} GatherValues(front: seq<Item>, values: seq<Value>, n: string)
    ensures Gather(front + seq(|values|, i requires 0 <= i < |values| => ValueItem(values[i])), n) ==
            Gather(front, n).(table := Gather(front, n).table + ValuesIn(values, n))
  {
    var items := front + seq(|values|, i requires 0 <= i < |values| => ValueItem(values[i]));
    if values == [] {
      assert items == front;
    } else {
      var p := values[..|values| - 1];
      assert items[..|items| - 1] == front + seq(|p|, i requires 0 <= i < |p| => ValueItem(p[i]));
      GatherValues(front, p, n);
    }
  }

  lemma {:induction false} GatherLogs(front: seq<Item>, logs: seq<Log>, n: string)
    ensures Gather(front + seq(|logs|, i requires 0 <= i < |logs| => LogItem(logs[i])), n) ==
            Gather(front, n).(logs := Gather(front, n).logs + LogsIn(logs, n))
  {
    var items := front + seq(|logs|, i requires 0 <= i < |logs| => LogItem(logs[i]));
    if logs == [] {
      assert items == front;
    } else {
      var p := logs[..|logs| - 1];
      assert items[..|items| - 1] == front + seq(|p|, i requires 0 <= i < |p| => LogItem(p[i]));
      GatherLogs(front, p, n);
    }
  }

  /** The reference contents of a folder, kind by kind. */
  lemma GatherItems(graphs: seq<Graph>, values: seq<Value>, logs: seq<Log>, n: string)
    ensures Gather(Items(graphs, values, logs), n) ==
            Folder(n, ValuesIn(values, n), LogsIn(logs, n), GraphsIn(graphs, n))
  {
    var gi := seq(|graphs|, i requires 0 <= i < |graphs| => GraphItem(graphs[i]));
    GatherGraphs(graphs, n);
    GatherValues(gi, values, n);
    GatherLogs(gi + seq(|values|, i requires 0 <= i < |values| => ValueItem(values[i])), logs, n);
  }

  /** The sort key: the folder name lower-cased in ASCII. */
  function Key(f: Folder): string {
    Lower(f.name)
  }

  /** Sorted non-decreasingly by key. */
  ghost predicate Sorted(fs: seq<Folder>) {
    forall i, j :: 0 <= i < j < |fs| ==> LexLe(Key(fs[i]), Key(fs[j]))
  }

  /** The folders whose key is `k`, in list order. */
  function WithKey(fs: seq<Folder>, k: string): seq<Folder> {
    if fs == [] then []
    else (if Key(fs[0]) == k then [fs[0]] else []) + WithKey(fs[1..], k)
  }

  /** Inserts `x` in front of the first folder whose key is not smaller. */
  function Insert(x: Folder, fs: seq<Folder>): (r: seq<Folder>)
    ensures |r| == |fs| + 1
  {
    if fs == [] then [x]
    else if LexLe(Key(x), Key(fs[0])) then [x] + fs
    else [fs[0]] + Insert(x, fs[1..])
  }

  /**
   * The stable sort by key (the library sort of the grouping stage),
   * written as an insertion sort: folders with equal keys keep their order.
   */
  function SortFolders(fs: seq<Folder>): (r: seq<Folder>)
    ensures |r| == |fs|
  {
    if fs == [] then [] else Insert(fs[0], SortFolders(fs[1..]))
  }

  lemma {:induction false} InsertPerm(x: Folder, fs: seq<Folder>)
    ensures multiset(Insert(x, fs)) == multiset(fs) + multiset{x}
    ensures Total(Insert(x, fs)) == Size(x) + Total(fs)
  {
    if fs != [] && !LexLe(Key(x), Key(fs[0])) {
      InsertPerm(x, fs[1..]);
      assert fs == [fs[0]] + fs[1..];
    }
  }

  lemma {:induction false} InsertSorted(x: Folder, fs: seq<Folder>)
    requires Sorted(fs)
    ensures Sorted(Insert(x, fs))
  {
    if fs == [] {
    } else if LexLe(Key(x), Key(fs[0])) {
      forall j | 0 <= j < |fs| ensures LexLe(Key(x), Key(fs[j])) {
        if j > 0 { LexLeTrans(Key(x), Key(fs[0]), Key(fs[j])); }
      }
    } else {
      var rest := Insert(x, fs[1..]);
      InsertSorted(x, fs[1..]);
      InsertPerm(x, fs[1..]);
      LexLeTotal(Key(x), Key(fs[0]));
      forall j | 0 <= j < |rest| ensures LexLe(Key(fs[0]), Key(rest[j])) {
        assert rest[j] in multiset(rest);
        if rest[j] != x {
          assert rest[j] in fs[1..];
        }
      }
      assert Insert(x, fs) == [fs[0]] + rest;
    }
  }

  lemma {:induction false} InsertStable(x: Folder, fs: seq<Folder>, k: string)
    ensures WithKey(Insert(x, fs), k) == (if Key(x) == k then [x] else []) + WithKey(fs, k)
  {
    if fs == [] {
      assert Insert(x, fs)[1..] == [];
    } else if LexLe(Key(x), Key(fs[0])) {
      assert Insert(x, fs)[1..] == fs;
    } else {
      InsertStable(x, fs[1..], k);
      assert Insert(x, fs)[1..] == Insert(x, fs[1..]);
      if Key(x) == k && Key(fs[0]) == k {
        LexLeRefl(k);
      }
    }
  }

  /** Insertion sort returns a permutation of its input. */
  lemma {:induction false} SortPerm(fs: seq<Folder>)
    ensures multiset(SortFolders(fs)) == multiset(fs)
    ensures Total(SortFolders(fs)) == Total(fs)
  {
    if fs != [] {
      SortPerm(fs[1..]);
      InsertPerm(fs[0], SortFolders(fs[1..]));
      assert fs == [fs[0]] + fs[1..];
    }
  }

  /** Insertion sort returns its input sorted by key. */
  lemma {:induction false} SortSorted(fs: seq<Folder>)
    ensures Sorted(SortFolders(fs))
  {
    if fs != [] {
      SortSorted(fs[1..]);
      InsertSorted(fs[0], SortFolders(fs[1..]));
    }
  }

  /** Insertion sort is stable: the folders of each key keep their order. */
  lemma {:induction false} SortStable(fs: seq<Folder>, k: string)
    ensures WithKey(SortFolders(fs), k) == WithKey(fs, k)
  {
    if fs != [] {
      SortStable(fs[1..], k);
      InsertStable(fs[0], SortFolders(fs[1..]), k);
    }
  }

  /** A folder is in a list exactly when it is among the list's folders of its own key. */
  lemma {:induction false} WithKeyMember(fs: seq<Folder>, f: Folder)
    ensures f in fs <==> f in WithKey(fs, Key(f))
  {
    if fs != [] {
      WithKeyMember(fs[1..], f);
      assert fs == [fs[0]] + fs[1..];
    }
  }

  /** A non-empty list holds at least one folder of its first folder's key. */
  lemma WithKeyFront(fs: seq<Folder>)
    requires fs != []
    ensures WithKey(fs, Key(fs[0])) != []
  {
    assert WithKey(fs, Key(fs[0]))[0] == fs[0];
  }

  /** A sorted list starts with a folder of the least key among its folders. */
  lemma SortedFirst(fs: seq<Folder>, f: Folder)
    requires Sorted(fs) && f in fs
    ensures LexLe(Key(fs[0]), Key(f))
  {
    var j :| 0 <= j < |fs| && fs[j] == f;
    if j == 0 {
      LexLeRefl(Key(f));
    }
  }

  /** Two sorted lists holding, key by key, the same folders in the same order start alike. */
  lemma SortedHeads(gs: seq<Folder>, hs: seq<Folder>)
    requires Sorted(gs) && Sorted(hs) && gs != [] && hs != []
    requires forall k :: WithKey(gs, k) == WithKey(hs, k)
    ensures gs[0] == hs[0]
  {
    var x, y := gs[0], hs[0];
    WithKeyMember(hs, y);
    WithKeyMember(gs, y);
    WithKeyMember(gs, x);
    WithKeyMember(hs, x);
    assert WithKey(gs, Key(y)) == WithKey(hs, Key(y));
    assert WithKey(gs, Key(x)) == WithKey(hs, Key(x));
    SortedFirst(gs, y);
    SortedFirst(hs, x);
    LexLeAntisym(Key(x), Key(y));
    assert WithKey(gs, Key(x)) == [x] + WithKey(gs[1..], Key(x));
    assert WithKey(hs, Key(x)) == [y] + WithKey(hs[1..], Key(x));
  }

  /**
   * Two lists sorted by key that agree, key by key, on which folders they
   * hold and in what order are the same list.
   */
  lemma {:induction false} SortedUnique(gs: seq<Folder>, hs: seq<Folder>)
    requires Sorted(gs) && Sorted(hs)
    requires forall k :: WithKey(gs, k) == WithKey(hs, k)
    ensures gs == hs
  {
    if gs == [] && hs == [] {
    } else if gs == [] {
      WithKeyFront(hs);
      assert false;
    } else if hs == [] {
      WithKeyFront(gs);
      assert false;
    } else {
      SortedHeads(gs, hs);
      forall k ensures WithKey(gs[1..], k) == WithKey(hs[1..], k) {
        var front := if Key(gs[0]) == k then [gs[0]] else [];
        assert WithKey(gs, k) == front + WithKey(gs[1..], k);
        assert WithKey(hs, k) == front + WithKey(hs[1..], k);
        assert (front + WithKey(gs[1..], k))[|front|..] == WithKey(gs[1..], k);
        assert (front + WithKey(hs[1..], k))[|front|..] == WithKey(hs[1..], k);
      }
      SortedUnique(gs[1..], hs[1..]);
      assert gs == [gs[0]] + gs[1..] && hs == [hs[0]] + hs[1..];
    }
  }

  /**
   * Any list sorted by key that keeps the order of the folders of each key
   * is the insertion sort's result: every stable sort by this key agrees.
   */
  lemma SortUnique(fs: seq<Folder>, gs: seq<Folder>)
    requires Sorted(gs)
    requires forall k :: WithKey(gs, k) == WithKey(fs, k)
    ensures gs == SortFolders(fs)
  {
    SortSorted(fs);
    forall k ensures WithKey(gs, k) == WithKey(SortFolders(fs), k) {
      SortStable(fs, k);
    }
    SortedUnique(gs, SortFolders(fs));
  }

  /** No two folders share a name. */
  ghost predicate DistinctNames(fs: seq<Folder>) {
    forall i, j :: 0 <= i < j < |fs| ==> fs[i].name != fs[j].name
  }

  /** Sorting folders with distinct names keeps the names distinct. */
  lemma {:induction false} SortNames(fs: seq<Folder>)
    requires DistinctNames(fs)
    ensures DistinctNames(SortFolders(fs))
  {
    if fs != [] {
      var rest := SortFolders(fs[1..]);
      SortNames(fs[1..]);
      SortPerm(fs[1..]);
      forall f | f in rest ensures f.name != fs[0].name {
        assert f in multiset(rest);
        assert f in fs[1..];
      }
      InsertNames(fs[0], rest);
    }
  }

  lemma {:induction false} InsertNames(x: Folder, fs: seq<Folder>)
    requires DistinctNames(fs)
    requires forall f :: f in fs ==> f.name != x.name
    ensures DistinctNames(Insert(x, fs))
  {
    if fs != [] && !LexLe(Key(x), Key(fs[0])) {
      var rest := Insert(x, fs[1..]);
      InsertNames(x, fs[1..]);
      InsertPerm(x, fs[1..]);
      forall f | f in rest ensures f.name != fs[0].name {
        assert f in multiset(rest);
        if f != x {
          assert f in fs[1..];
        }
      }
      assert Insert(x, fs) == [fs[0]] + rest;
    }
  }

  /** The folder list the grouping stage hands to the page generator. */
  function SortedFolders(graphs: seq<Graph>, values: seq<Value>, logs: seq<Log>): seq<Folder> {
    SortFolders(Grouping(graphs, values, logs))
  }

  /**
   * Builds the folder list: every graph, then every value, then every log is
   * filed into the folder of its name (created on first need), and the
   * folders are sorted by lower-cased name.
   */
  method GenFolders(graphs: seq<Graph>, values: seq<Value>, logs: seq<Log>) returns (folders: seq<Folder>)
    ensures folders == SortedFolders(graphs, values, logs)
  {
    var graphItems := seq(|graphs|, i requires 0 <= i < |graphs| => GraphItem(graphs[i]));
    var valueItems := seq(|values|, i requires 0 <= i < |values| => ValueItem(values[i]));
    var logItems := seq(|logs|, i requires 0 <= i < |logs| => LogItem(logs[i]));
    PlaceAllAppend([], graphItems);
    PlaceAllAppend(graphItems, valueItems);
    PlaceAllAppend(graphItems + valueItems, logItems);
    assert [] + graphItems == graphItems;
    folders := FileAll([], graphItems);
    folders := FileAll(folders, valueItems);
    folders := FileAll(folders, logItems);
    assert folders == Grouping(graphs, values, logs);
    folders := SortFolders(folders);
  }

  /**
   * Before the sort there is one folder per distinct folder name, in order
   * of first occurrence among the inputs.
   */
  lemma GroupingNames(graphs: seq<Graph>, values: seq<Value>, logs: seq<Log>)
    ensures Names(Grouping(graphs, values, logs)) == Distinct(Origins(Items(graphs, values, logs)))
    ensures DistinctNames(Grouping(graphs, values, logs))
  {
    var items := Items(graphs, values, logs);
    var fs := Grouping(graphs, values, logs);
    PlaceAllSpec(items);
    DistinctSpec(Origins(items));
    forall i, j | 0 <= i < j < |fs| ensures fs[i].name != fs[j].name {
      assert Names(fs)[i] != Names(fs)[j];
    }
  }

  /**
   * Before the sort each folder holds exactly the graphs, values and logs of
   * its name, each kind in input order, and is never empty; together the
   * folders hold every input once.
   */
  lemma GroupingContents(graphs: seq<Graph>, values: seq<Value>, logs: seq<Log>)
    ensures forall f :: f in Grouping(graphs, values, logs) ==>
              f.graphs == GraphsIn(graphs, f.name) &&
              f.table == ValuesIn(values, f.name) &&
              f.logs == LogsIn(logs, f.name) &&
              Size(f) > 0
    ensures Total(Grouping(graphs, values, logs)) == |graphs| + |values| + |logs|
  {
    var items := Items(graphs, values, logs);
    var fs := Grouping(graphs, values, logs);
    PlaceAllSpec(items);
    DistinctSpec(Origins(items));
    forall f | f in fs
      ensures f.graphs == GraphsIn(graphs, f.name) && f.table == ValuesIn(values, f.name) && f.logs == LogsIn(logs, f.name)
      ensures Size(f) > 0
    {
      var i :| 0 <= i < |fs| && fs[i] == f;
      assert Names(fs)[i] == f.name;
      GatherItems(graphs, values, logs, f.name);
      GatherPresent(items, f.name);
    }
  }


  /**
   * What the grouping stage delivers.  The folders are sorted by lower-cased
   * name, their names are distinct, and they hold every input once; folders
   * whose names differ only in letter case stay in creation order.
   */
  lemma FoldersSpec(graphs: seq<Graph>, values: seq<Value>, logs: seq<Log>)
    ensures Sorted(SortedFolders(graphs, values, logs))
    ensures DistinctNames(SortedFolders(graphs, values, logs))
    ensures Total(SortedFolders(graphs, values, logs)) == |graphs| + |values| + |logs|
    ensures forall k :: WithKey(SortedFolders(graphs, values, logs), k) == WithKey(Grouping(graphs, values, logs), k)
  {
    var unsorted := Grouping(graphs, values, logs);
    GroupingNames(graphs, values, logs);
    GroupingContents(graphs, values, logs);
    SortPerm(unsorted);
    SortSorted(unsorted);
    SortNames(unsorted);
    forall k ensures WithKey(SortFolders(unsorted), k) == WithKey(unsorted, k) {
      SortStable(unsorted, k);
    }
  }

  /** Sorting only reorders: every sorted folder is a filed folder and back. */
  lemma SortMembers(fs: seq<Folder>)
    ensures forall f :: f in SortFolders(fs) <==> f in fs
  {
    SortPerm(fs);
    forall f ensures f in SortFolders(fs) <==> f in fs {
      assert f in SortFolders(fs) <==> f in multiset(SortFolders(fs));
      assert f in fs <==> f in multiset(fs);
    }
  }

  /**
   * Each folder of the list holds exactly the graphs, values and logs of its
   * name, each kind in input order, and is never empty.
   */
  lemma FolderContents(graphs: seq<Graph>, values: seq<Value>, logs: seq<Log>)
    ensures forall f :: f in SortedFolders(graphs, values, logs) ==>
              f.graphs == GraphsIn(graphs, f.name) &&
              f.table == ValuesIn(values, f.name) &&
              f.logs == LogsIn(logs, f.name) &&
              Size(f) > 0
  {
    GroupingContents(graphs, values, logs);
    SortMembers(Grouping(graphs, values, logs));
  }

  /** The folder names are exactly the folder names of the inputs. */
  lemma FolderNames(graphs: seq<Graph>, values: seq<Value>, logs: seq<Log>)
    ensures forall n :: n in Names(SortedFolders(graphs, values, logs)) <==> n in Origins(Items(graphs, values, logs))
  {
    var origins := Origins(Items(graphs, values, logs));
    var unsorted := Grouping(graphs, values, logs);
    var fs := SortFolders(unsorted);
    GroupingNames(graphs, values, logs);
    DistinctSpec(origins);
    SortMembers(unsorted);
    forall n ensures n in Names(fs) <==> n in origins {
      if n in origins {
        assert n in Names(unsorted);
        var i :| 0 <= i < |unsorted| && Names(unsorted)[i] == n;
        assert unsorted[i] in fs;
        var j :| 0 <= j < |fs| && fs[j] == unsorted[i];
        assert Names(fs)[j] == n;
      }
      if n in Names(fs) {
        var j :| 0 <= j < |fs| && Names(fs)[j] == n;
        assert fs[j] in unsorted;
        var i :| 0 <= i < |unsorted| && unsorted[i] == fs[j];
        assert Names(unsorted)[i] == n;
      }
    }
  }


}
