/** The store of loaded datasets: a dictionary from file name to table that
    keeps its names in insertion order, filled by the import action, emptied
    entry by entry by the delete buttons, and listed by the sidebar. */
module Registry {
  import opened Wrappers

  // ---------------------------------------------------------------- file names

  /** The file format the loader is chosen by. */
  datatype Format = Csv | Excel

  /** The final component of a path: everything after its last '/'. */
  function Basename(path: string): (name: string)
    ensures |name| <= |path|
  {
    if path == [] || path[|path| - 1] == '/' then []
    else
      var name := Basename(path[..|path| - 1]);
      name + [path[|path| - 1]]
  }

  /** A path ending in ".csv" is read as CSV and every other path as a spreadsheet. */
  function FormatOf(path: string): Format {
    if |path| >= 4 && path[|path| - 4..] == ".csv" then Csv else Excel
  }

  /** The base name is the longest suffix of the path without a '/': it holds no
      '/', ends the path, and is either the whole path or preceded by a '/'. */
  lemma {:induction false} BasenameIsLastComponent(path: string)
    ensures var name := Basename(path);
      && '/' !in name
      && |name| <= |path| && path[|path| - |name|..] == name
      && (|name| < |path| ==> path[|path| - |name| - 1] == '/')
  {
    if path != [] && path[|path| - 1] != '/' {
      var init, c := path[..|path| - 1], path[|path| - 1];
      BasenameIsLastComponent(init);
      var name := Basename(init);
      assert Basename(path) == name + [c];
      assert init[|init| - |name|..] == path[|path| - 1 - |name|..|path| - 1];
      assert path[|path| - |name| - 1..] == path[|path| - 1 - |name|..|path| - 1] + [c];
    }
  }

  /** The loader choice depends only on the ".csv" suffix. */
  lemma FormatOfSuffix(stem: string)
    ensures FormatOf(stem + ".csv") == Csv
    ensures FormatOf(stem + ".xlsx") == Excel
  {
    assert (stem + ".csv")[|stem|..] == ".csv";
    assert (stem + ".xlsx")[|stem| + 1..] == "xlsx";
  }

  /** The text of a name's sidebar button: its first fifteen characters. */
  function Label(name: string): (l: string)
    ensures |l| == if |name| < 15 then |name| else 15
    ensures name[..|l|] == l
  {
    if |name| < 15 then name else name[..15]
  }

  // ---------------------------------------------------------------- the abstract store

  /** The store's content: its names in insertion order and the table of each name. */
  datatype Snapshot<T> = Snapshot(names: seq<string>, tables: map<string, T>)

  /** The names are distinct and are exactly the keys that have a table. */
  predicate Wf<T>(s: Snapshot<T>) {
    && (forall i, j :: 0 <= i < j < |s.names| ==> s.names[i] != s.names[j])
    && (forall n :: n in s.tables ==> n in s.names)
    && (forall i :: 0 <= i < |s.names| ==> s.names[i] in s.tables)
  }

  function IndexOf(names: seq<string>, n: string): (i: nat)
    requires n in names
    ensures i < |names| && names[i] == n
    ensures forall j :: 0 <= j < i ==> names[j] != n
  {
    if names[0] == n then 0 else 1 + IndexOf(names[1..], n)
  }

  /** Dictionary assignment `datasets[n] = t`. */
  function Put<T>(s: Snapshot<T>, n: string, t: T): (r: Snapshot<T>)
    requires Wf(s)
    ensures Wf(r)
  {
    if n in s.tables then Snapshot(s.names, s.tables[n := t])
    else Snapshot(s.names + [n], s.tables[n := t])
  }

  /** Dictionary deletion `del datasets[n]`. */
  function Delete<T>(s: Snapshot<T>, n: string): (r: Snapshot<T>)
    requires Wf(s) && n in s.tables
    ensures Wf(r)
  {
    var i := IndexOf(s.names, n);
    RemoveAt(s.names, i);
    Snapshot(s.names[..i] + s.names[i + 1..], s.tables - {n})
  }

  /** Removing position i from distinct names shifts the later ones down by one
      and loses exactly the name at i. */
  lemma RemoveAt(names: seq<string>, i: nat)
    requires i < |names|
    requires forall a, b :: 0 <= a < b < |names| ==> names[a] != names[b]
    ensures var r := names[..i] + names[i + 1..];
      && |r| == |names| - 1
      && (forall k :: 0 <= k < |r| ==> r[k] == names[if k < i then k else k + 1])
      && (forall a, b :: 0 <= a < b < |r| ==> r[a] != r[b])
      && (forall x :: x in r <==> x in names && x != names[i])
  {
    var r := names[..i] + names[i + 1..];
    assert forall k :: 0 <= k < |r| ==> r[k] == names[if k < i then k else k + 1];
    forall x | x in names && x != names[i] ensures x in r {
      var j :| 0 <= j < |names| && names[j] == x;
      assert r[if j < i then j else j - 1] == x;
    }
  }

  /** After `datasets[n] = t`, n holds t and every other name keeps its table. */
  lemma PutTables<T>(s: Snapshot<T>, n: string, t: T)
    requires Wf(s)
    ensures n in Put(s, n, t).tables && Put(s, n, t).tables[n] == t
    ensures forall k :: k != n ==> (k in Put(s, n, t).tables <==> k in s.tables)
    ensures forall k :: k != n && k in s.tables ==> Put(s, n, t).tables[k] == s.tables[k]
  {
  }

  /** After `datasets[n] = t` every name keeps its position: a name already
      present leaves the order as it was, and a new one is appended. */
  lemma PutNames<T>(s: Snapshot<T>, n: string, t: T)
    requires Wf(s)
    ensures var r := Put(s, n, t);
      && |r.names| == (if n in s.tables then |s.names| else |s.names| + 1)
      && s.names <= r.names
  {
  }

  /** After `datasets[n] = t` a name already present stays at its index and a
      new one takes the last. */
  lemma PutIndex<T>(s: Snapshot<T>, n: string, t: T)
    requires Wf(s)
    ensures IndexOf(Put(s, n, t).names, n) == (if n in s.tables then IndexOf(s.names, n) else |s.names|)
  {
    var r := Put(s, n, t);
    if n in s.tables {
      IndexOfUnique(s.names, n, IndexOf(s.names, n));
    } else {
      IndexOfUnique(r.names, n, |s.names|);
    }
  }

  /** In a list of distinct names, a position holding n is n's index. */
  lemma IndexOfUnique(names: seq<string>, n: string, i: nat)
    requires forall a, b :: 0 <= a < b < |names| ==> names[a] != names[b]
    requires i < |names| && names[i] == n
    ensures IndexOf(names, n) == i
  {
  }

  /** Storing under the same name twice keeps only the second table. */
  lemma PutPut<T>(s: Snapshot<T>, n: string, t1: T, t2: T)
    requires Wf(s)
    ensures Put(Put(s, n, t1), n, t2) == Put(s, n, t2)
  {
    var once := Put(s, n, t1);
    assert n in once.tables;
    assert once.tables[n := t2] == s.tables[n := t2];
  }

  /** After `del datasets[n]`, n is gone, every other name keeps its table,
      and one name fewer remains. */
  lemma DeleteTables<T>(s: Snapshot<T>, n: string)
    requires Wf(s) && n in s.tables
    ensures var r := Delete(s, n);
      && n !in r.tables && n !in r.names
      && |r.names| == |s.names| - 1
      && (forall k :: k != n ==> (k in r.tables <==> k in s.tables))
      && (forall k :: k != n && k in s.tables ==> r.tables[k] == s.tables[k])
  {
  }

  /** Removing one of distinct names keeps the relative order of the others. */
  lemma RemoveAtOrder(names: seq<string>, i: nat, a: string, b: string)
    requires i < |names|
    requires forall x, y :: 0 <= x < y < |names| ==> names[x] != names[y]
    requires a in names[..i] + names[i + 1..] && b in names[..i] + names[i + 1..]
    ensures a in names && b in names
    ensures IndexOf(names[..i] + names[i + 1..], a) < IndexOf(names[..i] + names[i + 1..], b)
        <==> IndexOf(names, a) < IndexOf(names, b)
  {
    var r := names[..i] + names[i + 1..];
    var ia, ib := IndexOf(r, a), IndexOf(r, b);
    var ja, jb := if ia < i then ia else ia + 1, if ib < i then ib else ib + 1;
    assert r[ia] == names[ja] && r[ib] == names[jb];
    IndexOfUnique(names, a, ja);
    IndexOfUnique(names, b, jb);
  }

  /** After `del datasets[n]` the remaining names keep their relative order. */
  lemma DeleteOrder<T>(s: Snapshot<T>, n: string, a: string, b: string)
    requires Wf(s) && n in s.tables
    requires a in Delete(s, n).names && b in Delete(s, n).names
    ensures a in s.names && b in s.names
    ensures IndexOf(Delete(s, n).names, a) < IndexOf(Delete(s, n).names, b)
        <==> IndexOf(s.names, a) < IndexOf(s.names, b)
  {
    RemoveAtOrder(s.names, IndexOf(s.names, n), a, b);
  }

  /** Deleting a name and storing it again moves it to the end. */
  lemma DeleteThenPut<T>(s: Snapshot<T>, n: string, t: T)
    requires Wf(s) && n in s.tables
    ensures Put(Delete(s, n), n, t).names == Delete(s, n).names + [n]
  {
  }

  /** The store after loading each path in turn under its base name. */
  function LoadAll<T>(s: Snapshot<T>, paths: seq<string>, read: (Format, string) -> T): (r: Snapshot<T>)
    requires Wf(s)
    ensures Wf(r)
  {
    if paths == [] then s
    else
      var p := paths[|paths| - 1];
      Put(LoadAll(s, paths[..|paths| - 1], read), Basename(p), read(FormatOf(p), p))
  }

  /** The last path and the paths before it. */
  lemma LoadAllStep<T>(s: Snapshot<T>, paths: seq<string>, read: (Format, string) -> T)
    requires Wf(s) && paths != []
    ensures var p := paths[|paths| - 1];
      LoadAll(s, paths, read) == Put(LoadAll(s, paths[..|paths| - 1], read), Basename(p), read(FormatOf(p), p))
  {
  }

  /** Loading keeps the earlier names first and in their order. */
  lemma {:induction false} LoadAllKeepsOrder<T>(s: Snapshot<T>, paths: seq<string>, read: (Format, string) -> T)
    requires Wf(s)
    ensures s.names <= LoadAll(s, paths, read).names
  {
    if paths != [] {
      var init, p := paths[..|paths| - 1], paths[|paths| - 1];
      var mid := LoadAll(s, init, read);
      LoadAllKeepsOrder(s, init, read);
      LoadAllStep(s, paths, read);
      var r := Put(mid, Basename(p), read(FormatOf(p), p));
      assert mid.names <= r.names;
    }
  }

  /** The base names of the chosen paths. */
  function Basenames(paths: seq<string>): set<string> {
    set k | 0 <= k < |paths| :: Basename(paths[k])
  }

  lemma BasenamesStep(paths: seq<string>)
    requires paths != []
    ensures Basenames(paths) == Basenames(paths[..|paths| - 1]) + {Basename(paths[|paths| - 1])}
  {
    var init := paths[..|paths| - 1];
    assert forall k :: 0 <= k < |init| ==> init[k] == paths[k];
    forall n | n in Basenames(paths) ensures n in Basenames(init) + {Basename(paths[|paths| - 1])} {
      var k :| 0 <= k < |paths| && Basename(paths[k]) == n;
      if k < |init| {
        assert Basename(init[k]) == n;
      }
    }
  }

  /** Loading adds exactly the base names of the paths to the stored names. */
  lemma {:induction false} LoadAllAddsBasenames<T>(s: Snapshot<T>, paths: seq<string>, read: (Format, string) -> T)
    requires Wf(s)
    ensures LoadAll(s, paths, read).tables.Keys == s.tables.Keys + Basenames(paths)
  {
    if paths != [] {
      var init, p := paths[..|paths| - 1], paths[|paths| - 1];
      LoadAllAddsBasenames(s, init, read);
      LoadAllStep(s, paths, read);
      BasenamesStep(paths);
    }
  }

  /** Loading leaves the table of a name no path maps to as it was. */
  lemma {:induction false} LoadAllKeepsOthers<T>(s: Snapshot<T>, paths: seq<string>, read: (Format, string) -> T, n: string)
    requires Wf(s) && n in s.tables && n !in Basenames(paths)
    ensures n in LoadAll(s, paths, read).tables
    ensures LoadAll(s, paths, read).tables[n] == s.tables[n]
  {
    if paths != [] {
      var init, p := paths[..|paths| - 1], paths[|paths| - 1];
      var mid := LoadAll(s, init, read);
      BasenamesStep(paths);
      LoadAllKeepsOthers(s, init, read, n);
      LoadAllStep(s, paths, read);
      PutTables(mid, Basename(p), read(FormatOf(p), p));
    }
  }

  /** When several paths share a base name, the table from the last of them wins. */
  lemma {:induction false} LoadAllLastWins<T>(s: Snapshot<T>, paths: seq<string>, read: (Format, string) -> T, k: nat)
    requires Wf(s) && k < |paths|
    requires forall j :: k < j < |paths| ==> Basename(paths[j]) != Basename(paths[k])
    ensures Basename(paths[k]) in LoadAll(s, paths, read).tables
    ensures LoadAll(s, paths, read).tables[Basename(paths[k])] == read(FormatOf(paths[k]), paths[k])
  {
    var init, p := paths[..|paths| - 1], paths[|paths| - 1];
    var mid := LoadAll(s, init, read);
    LoadAllStep(s, paths, read);
    PutTables(mid, Basename(p), read(FormatOf(p), p));
    if k < |paths| - 1 {
      assert forall j :: 0 <= j < |init| ==> init[j] == paths[j];
      LoadAllLastWins(s, init, read, k);
    }
  }

  // ---------------------------------------------------------------- the sidebar

  /** One sidebar row: the button text and the name its buttons act on. */
  datatype Row = Row(text: string, name: string)

  // ---------------------------------------------------------------- the mutable store

  /** The application's `datasets` dictionary. */
  class Datasets<T> {
    var names: seq<string>
    var tables: map<string, T>

    predicate Valid()
      reads this
    {
      Wf(Snapshot(names, tables))
    }

    function Model(): Snapshot<T>
      reads this
    {
      Snapshot(names, tables)
    }

    /** The store starts empty. */
    constructor ()
      ensures Valid() && names == [] && tables == map[]
    {
      names := [];
      tables := map[];
    }

    /** `datasets[name] = table`. */
    method Assign(name: string, table: T)
      requires Valid()
      modifies this
      ensures Valid() && Model() == Put(old(Model()), name, table)
    {
      if name !in tables {
        names := names + [name];
      }
      tables := tables[name := table];
    }

    /** The import action: each chosen path is read with the loader its suffix
        selects and stored under its base name, in the order chosen. */
    method LoadFiles(paths: seq<string>, read: (Format, string) -> T)
      requires Valid()
      modifies this
      ensures Valid() && Model() == LoadAll(old(Model()), paths, read)
    {
      for i := 0 to |paths|
        invariant Valid()
        invariant Model() == LoadAll(old(Model()), paths[..i], read)
      {
        var path := paths[i];
        var name := Basename(path);
        var table := read(FormatOf(path), path);
        assert paths[..i + 1][..i] == paths[..i];
        Assign(name, table);
      }
      assert paths[..|paths|] == paths;
    }

    /** The delete button: when the user confirms, `del datasets[name]`. */
    method RemoveData(name: string, confirmed: bool)
      requires Valid() && (confirmed ==> name in tables)
      modifies this
      ensures Valid()
      ensures Model() == if confirmed then Delete(old(Model()), name) else old(Model())
    {
      if confirmed {
        var i := IndexOf(names, name);
        names := names[..i] + names[i + 1..];
        tables := tables - {name};
      }
    }

    /** `datasets[name]`, or None where Python raises KeyError. */
    method Get(name: string) returns (r: Option<T>)
      ensures r.Some? <==> name in tables
      ensures r.Some? ==> r.value == tables[name]
    {
      r := if name in tables then Some(tables[name]) else None;
    }

    /** The sidebar: one row per stored name, in insertion order. */
    method Sidebar() returns (rows: seq<Row>)
      requires Valid()
      ensures |rows| == |names|
      ensures forall i :: 0 <= i < |rows| ==> rows[i].name == names[i] && rows[i].text == Label(names[i])
    {
      rows := [];
      for i := 0 to |names|
        invariant |rows| == i
        invariant forall k :: 0 <= k < i ==> rows[k].name == names[k] && rows[k].text == Label(names[k])
      {
        rows := rows + [Row(Label(names[i]), names[i])];
      }
    }
  }

  /** Storing a table twice under one name keeps the second and the name's place. */
  method OverwriteKeepsPlace<T>(t1: T, t2: T, t3: T)
  {
    var d := new Datasets<T>();
    d.Assign("a.csv", t1);
    assert d.names == ["a.csv"];
    d.Assign("b.csv", t2);
    assert d.names == ["a.csv", "b.csv"];
    d.Assign("a.csv", t3);
    assert d.names == ["a.csv", "b.csv"] && d.tables["a.csv"] == t3;
    var r := d.Get("a.csv");
    assert r == Some(t3);
    d.RemoveData("a.csv", true);
    assert d.names == ["b.csv"];
  }
}
