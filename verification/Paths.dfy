// What git can hold: paths, and the blobs under them.
module Paths {
  import opened Text

  /** Paths to blobs: the index, or a commit's tree. */
  type Index = map<string, string>

  predicate Component(s: string) { s != "" && s != "." && s != ".." }

  /** path_storable: no component is empty, "." or ".."; a trailing slash is accepted. */
  predicate Storable(path: string)
    decreases |path|
  {
    path != "" &&
    var m := IndexOf(path, '/');
    Component(path[..m]) && (m + 1 >= |path| || Storable(path[m + 1..]))
  }

  /** git_index_add refuses what git cannot store. */
  function Put(index: Index, path: string, blob: string): Index
  {
    if Storable(path) then index[path := blob] else index
  }

  /** The two dictionary items each platform spells its own way, and the control. */
  const ID_CANON := "@ID"
  const PH_CANON := "%PH%"
  const CONTROL := "%FILE%"

  /** The local spellings. */
  datatype Names = Names(idItem: string, phItem: string)

  /** id_item_to_canon */
  function ToCanon(n: Names, id: string): string
  {
    if id == n.idItem then ID_CANON else if id == n.phItem then PH_CANON else id
  }

  /** id_item_to_local */
  function ToLocal(n: Names, name: string): string
  {
    if name == ID_CANON then n.idItem else if name == PH_CANON then n.phItem else name
  }

  /** A path git stores: every piece between slashes is a name other than `.` and `..`, but
      the last may be empty behind a slash. */
  lemma {:induction false} StorableExactly(path: string)
    ensures var ps := Split(path, '/');
      Storable(path) <==>
        && (forall i :: 0 <= i < |ps| - 1 ==> ps[i] != "" && ps[i] != "." && ps[i] != "..")
        && var last := ps[|ps| - 1];
           last != "." && last != ".." && (last == "" ==> |ps| >= 2)
    decreases |path|
  {
    hide IndexOf, Split;
    SplitStep(path, '/');
    var m := IndexOf(path, '/');
    var ps := Split(path, '/');
    if m == |path| {
      assert path[..m] == path;
    } else {
      var rest := path[m + 1..];
      StorableExactly(rest);
      JoinSplit(rest, '/');
      var qs := Split(rest, '/');
      assert forall i :: 0 < i < |ps| ==> ps[i] == qs[i - 1];
      assert forall i :: 0 <= i < |qs| ==> qs[i] == ps[i + 1];
      SplitPiece("", '/');
      assert |ps| == |qs| + 1 && ps[|ps| - 1] == qs[|qs| - 1];
      assert |qs| == 1 && qs[0] == "" ==> rest == "";
      assert ps[0] == path[..m] && (rest == "" <==> m + 1 == |path|);
      assert (forall i :: 0 <= i < |ps| - 1 ==> Component(ps[i])) <==>
        Component(ps[0]) && forall i :: 0 <= i < |qs| - 1 ==> Component(qs[i]);
    }
  }
}
