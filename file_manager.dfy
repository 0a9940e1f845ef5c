/**
 * modules/FileManager.py: the canvas nodes are saved as one record per node
 * (id, coordinates, flags) keyed by list position, and loaded back by
 * appending a new node per record. The file text itself is not modelled: a
 * saved file is the sequence of its records, each key of which may be missing
 * when the file is read back.
 */
module Files {
  import opened Options
  import opened Geometry
  import opened Core
  import opened ViewManagement

  /** The saved form of one node. */
  datatype Record = Record(id: int, x: int, y: int, isStart: bool, isEnd: bool)

  /** A record as read from a file: each of its keys may be absent. */
  datatype StoredRecord = StoredRecord(id: Option<int>, x: Option<int>, y: Option<int>,
                                       isStart: Option<bool>, isEnd: Option<bool>)

  function RecordOf(n: Knoten): (r: Record)
    reads n
    ensures r.x == n.pos.x && r.y == n.pos.y
  {
    Record(n.id, n.X(), n.Y(), n.isStart, n.isEnd)
  }

  /** The records of a node list, in list order. */
  function Records(ns: seq<Knoten>): (rs: seq<Record>)
    reads ns
    ensures |rs| == |ns| && forall i | 0 <= i < |ns| :: rs[i] == RecordOf(ns[i])
  {
    seq(|ns|, i reads ns requires 0 <= i < |ns| => RecordOf(ns[i]))
  }

  /** A record written to a file carries every key. */
  function Store(r: Record): StoredRecord
  {
    StoredRecord(Some(r.id), Some(r.x), Some(r.y), Some(r.isStart), Some(r.isEnd))
  }

  /** The file a list of records is saved as. */
  function Export(rs: seq<Record>): (file: seq<StoredRecord>)
    ensures |file| == |rs| && forall i | 0 <= i < |rs| :: file[i] == Store(rs[i])
  {
    seq(|rs|, i requires 0 <= i < |rs| => Store(rs[i]))
  }

  predicate Complete(s: StoredRecord)
  {
    s.id.Some? && s.x.Some? && s.y.Some? && s.isStart.Some? && s.isEnd.Some?
  }

  function Load(s: StoredRecord): Record
    requires Complete(s)
  {
    Record(s.id.value, s.x.value, s.y.value, s.isStart.value, s.isEnd.value)
  }

  /**
   * The records a load appends: those of the file in order, up to the first
   * one with a missing key, where the load stops.
   */
  function Loaded(file: seq<StoredRecord>): (rs: seq<Record>)
    ensures |rs| <= |file|
    ensures forall k | 0 <= k < |rs| :: Complete(file[k]) && rs[k] == Load(file[k])
    ensures |rs| < |file| ==> !Complete(file[|rs|])
    decreases |file|
  {
    if file == [] || !Complete(file[0]) then []
    else [Load(file[0])] + Loaded(file[1..])
  }

  /** Saving a list of records and loading the file back yields the same records. */
  lemma {:induction false} LoadedExport(rs: seq<Record>)
    ensures Loaded(Export(rs)) == rs
    decreases |rs|
  {
    if rs != [] {
      LoadedExport(rs[1..]);
      assert Export(rs)[1..] == Export(rs[1..]);
    }
  }

  /** Saving a canvas and loading it into an empty one reproduces every node's id, coordinates and flags. */
  lemma SaveThenLoad(ns: seq<Knoten>)
    ensures Loaded(Export(Records(ns))) == Records(ns)
  {
    LoadedExport(Records(ns));
  }

  // ---------------------------------------------------------------------
  // Listing saved files

  predicate EndsWithEns(name: seq<char>)
  {
    |name| >= 4 && name[|name| - 4..] == ".ens"
  }

  /** One directory of a directory walk: its path and the names of the files in it. */
  datatype WalkEntry = WalkEntry(dir: seq<char>, files: seq<seq<char>>)

  /** The `<dir>/<file>` paths of the files named `*.ens`, in walk order. */
  function EnsPaths(walk: seq<WalkEntry>): seq<seq<char>>
    decreases |walk|
  {
    if walk == [] then []
    else
      var e := walk[|walk| - 1];
      EnsPaths(walk[..|walk| - 1]) + EnsIn(e.dir, e.files)
  }

  function EnsIn(dir: seq<char>, files: seq<seq<char>>): seq<seq<char>>
    decreases |files|
  {
    if files == [] then []
    else
      var f := files[|files| - 1];
      EnsIn(dir, files[..|files| - 1]) + (if EndsWithEns(f) then [dir + "/" + f] else [])
  }

  /**
   * Every listed path is `<dir>/<file>` for a `.ens` file of the walk and ends
   * in `.ens`, and every `.ens` file of the walk is listed.
   */
  lemma {:induction false} EnsPathsSpec(walk: seq<WalkEntry>)
    ensures forall p | p in EnsPaths(walk) :: EndsWithEns(p)
    ensures forall p | p in EnsPaths(walk) ::
      exists i, j | 0 <= i < |walk| && 0 <= j < |walk[i].files| ::
        p == walk[i].dir + "/" + walk[i].files[j] && EndsWithEns(walk[i].files[j])
    ensures forall i, j | 0 <= i < |walk| && 0 <= j < |walk[i].files| && EndsWithEns(walk[i].files[j]) ::
      walk[i].dir + "/" + walk[i].files[j] in EnsPaths(walk)
    decreases |walk|
  {
    if walk != [] {
      var n := |walk| - 1;
      var before, last := EnsPaths(walk[..n]), EnsIn(walk[n].dir, walk[n].files);
      assert EnsPaths(walk) == before + last;
      EnsPathsSpec(walk[..n]);
      EnsInSpec(walk[n].dir, walk[n].files);
      forall p | p in EnsPaths(walk)
        ensures EndsWithEns(p)
        ensures exists i, j | 0 <= i < |walk| && 0 <= j < |walk[i].files| ::
          p == walk[i].dir + "/" + walk[i].files[j] && EndsWithEns(walk[i].files[j])
      {
        if p in before {
          var i, j :| 0 <= i < n && 0 <= j < |walk[..n][i].files| &&
            p == walk[..n][i].dir + "/" + walk[..n][i].files[j] && EndsWithEns(walk[..n][i].files[j]);
          assert walk[..n][i] == walk[i];
        } else {
          assert p in last;
          var j :| 0 <= j < |walk[n].files| && p == walk[n].dir + "/" + walk[n].files[j] && EndsWithEns(walk[n].files[j]);
        }
      }
      forall i, j | 0 <= i < |walk| && 0 <= j < |walk[i].files| && EndsWithEns(walk[i].files[j])
        ensures walk[i].dir + "/" + walk[i].files[j] in EnsPaths(walk)
      {
        if i < n {
          assert walk[..n][i] == walk[i];
          assert walk[i].dir + "/" + walk[i].files[j] in before;
        } else {
          assert walk[i].dir + "/" + walk[i].files[j] in last;
        }
      }
    }
  }

  lemma {:induction false} EnsInSpec(dir: seq<char>, files: seq<seq<char>>)
    ensures forall p | p in EnsIn(dir, files) :: EndsWithEns(p)
    ensures forall p | p in EnsIn(dir, files) ::
      exists j | 0 <= j < |files| :: p == dir + "/" + files[j] && EndsWithEns(files[j])
    ensures forall j | 0 <= j < |files| && EndsWithEns(files[j]) :: dir + "/" + files[j] in EnsIn(dir, files)
    decreases |files|
  {
    if files != [] {
      var n := |files| - 1;
      EnsInSpec(dir, files[..n]);
      var f := files[n];
      if EndsWithEns(f) {
        var p := dir + "/" + f;
        assert p[|p| - 4..] == f[|f| - 4..];
      }
      forall j | 0 <= j < |files| && EndsWithEns(files[j])
        ensures dir + "/" + files[j] in EnsIn(dir, files)
      {
        if j < n {
          assert files[..n][j] == files[j];
        }
      }
      forall p | p in EnsIn(dir, files)
        ensures exists j | 0 <= j < |files| :: p == dir + "/" + files[j] && EndsWithEns(files[j])
      {
        if p in EnsIn(dir, files[..n]) {
          var j :| 0 <= j < n && p == dir + "/" + files[..n][j] && EndsWithEns(files[..n][j]);
          assert files[..n][j] == files[j];
        } else {
          assert p == dir + "/" + f && EndsWithEns(f);
        }
      }
    }
  }

  /** Saves and loads the nodes of one canvas. */
  class FileManager {
    /** The canvas; its node list is the list this manager appends to. */
    const qgvm: GraphicsViewManager
    /** The records of the last save, keyed by list position. */
    var json: map<nat, Record>

    constructor (qgvm: GraphicsViewManager)
      ensures this.qgvm == qgvm && json == map[]
    {
      this.qgvm := qgvm;
      json := map[];
    }

    /**
     * Replaces the saved records by one record per canvas node, keyed by its
     * list position, and returns the file they are written as.
     */
    method ConvertToJson() returns (file: seq<StoredRecord>)
      modifies this`json
      ensures forall i | i in json :: i < |qgvm.objects|
      ensures forall i | 0 <= i < |qgvm.objects| :: i in json && json[i] == RecordOf(qgvm.objects[i])
      ensures file == Export(Records(qgvm.objects))
    {
      json := map[];
      var ns := qgvm.objects;
      for i := 0 to |ns|
        invariant forall k | k in json :: k < i
        invariant forall k | 0 <= k < i :: k in json && json[k] == RecordOf(ns[k])
      {
        var node := ns[i];
        json := json[i := Record(node.id, node.X(), node.Y(), node.isStart, node.isEnd)];
      }
      var points := json;
      file := seq(|ns|, i requires 0 <= i < |ns| => Store(points[i]));
    }

    /**
     * Appends one new node per record of the file, in file order. A record
     * missing a key stops the load: its node, if already created, is not
     * appended, and complete is false.
     */
    method ConvertToList(file: seq<StoredRecord>) returns (complete: bool)
      modifies qgvm`objects
      ensures |qgvm.objects| >= |old(qgvm.objects)| && qgvm.objects[..|old(qgvm.objects)|] == old(qgvm.objects)
      ensures Records(qgvm.objects[|old(qgvm.objects)|..]) == Loaded(file)
      ensures forall k | |old(qgvm.objects)| <= k < |qgvm.objects| :: fresh(qgvm.objects[k])
      ensures complete <==> |Loaded(file)| == |file|
    {
      var existing := qgvm.objects;
      var added: seq<Knoten> := [];
      for i := 0 to |file|
        invariant qgvm.objects == existing + added && |added| == i
        invariant forall k | 0 <= k < i :: Complete(file[k]) && fresh(added[k]) && RecordOf(added[k]) == Load(file[k])
      {
        var s := file[i];
        if s.x.None? || s.y.None? {
          assert Records(added) == Loaded(file);
          assert qgvm.objects[|existing|..] == added;
          return false;
        }
        var node := new Knoten(Point(s.x.value, s.y.value));
        if s.id.None? || s.isStart.None? || s.isEnd.None? {
          assert Records(added) == Loaded(file);
          assert qgvm.objects[|existing|..] == added;
          return false;
        }
        node.id := s.id.value;
        node.isStart := s.isStart.value;
        node.isEnd := s.isEnd.value;
        added := added + [node];
        qgvm.objects := qgvm.objects + [node];
      }
      assert Records(added) == Loaded(file);
      assert qgvm.objects[|existing|..] == added;
      complete := true;
    }

    /** Empties the canvas, loads the file into it and, when the load completes, derives the edges anew. */
    method LoadSelectedFile(file: seq<StoredRecord>) returns (complete: bool)
      modifies qgvm`objects, qgvm`lines
      ensures Records(qgvm.objects) == Loaded(file)
      ensures forall k | 0 <= k < |qgvm.objects| :: fresh(qgvm.objects[k])
      ensures complete <==> |Loaded(file)| == |file|
      ensures complete ==> Ends(qgvm.lines) == Polyline(Positions(qgvm.objects)) && FreshLines(qgvm.lines)
      ensures !complete ==> qgvm.lines == old(qgvm.lines)
    {
      qgvm.objects := [];
      complete := ConvertToList(file);
      assert qgvm.objects[0..] == qgvm.objects;
      if complete {
        qgvm.RefreshScene();
      }
    }

    /** The `.ens` files found by a directory walk, as `<dir>/<file>` paths in walk order. */
    method GetEnsFiles(walk: seq<WalkEntry>) returns (ens: seq<seq<char>>)
      ensures ens == EnsPaths(walk)
    {
      ens := [];
      for i := 0 to |walk|
        invariant ens == EnsPaths(walk[..i])
      {
        var e := walk[i];
        ghost var before := ens;
        for j := 0 to |e.files|
          invariant ens == before + EnsIn(e.dir, e.files[..j])
        {
          var file := e.files[j];
          if EndsWithEns(file) {
            ens := ens + [e.dir + "/" + file];
          }
          assert e.files[..j + 1][..j] == e.files[..j];
        }
        assert e.files[..|e.files|] == e.files;
        assert walk[..i + 1][..i] == walk[..i];
      }
      assert walk[..|walk|] == walk;
    }
  }
}
