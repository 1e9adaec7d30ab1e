/**
 * parseOperation: classifies a batch of changes reported by the host's
 * database into the operation the card box reacts to, with the file path it
 * concerns.
 */
module ChangeClassifier {
  import opened Wrappers

  /** A value inside a datom tuple, as the classifier compares it with `===`. */
  datatype Atom = Str(s: string) | Num(n: int) | Bool(b: bool) | Other

  /** A changed block entity; `path` is present only on file entities. */
  datatype ChangedBlock = ChangedBlock(path: Option<string>)

  /** The batch: changed blocks and the datoms `[e, a, v, t, added]` of the transaction. */
  datatype Changes = Changes(blocks: seq<ChangedBlock>, txData: seq<seq<Atom>>)

  datatype Operation = Create | Modified | Delete | NoOperation

  /** The pair returned by parseOperation; `path` is `''` with NoOperation. */
  datatype Classified = Classified(op: Operation, path: Atom)

  /** `txData[0][1] === 'lastModifiedAt'` (false on an empty txData, and on a
      first datom too short to have an attribute). */
  predicate FirstDatomIsLastModified(txData: seq<seq<Atom>>)
  {
    |txData| > 0 && |txData[0]| > 1 && txData[0][1] == Str("lastModifiedAt")
  }

  /** A datom of the shape the second scan accepts: five elements, attribute `path`. */
  predicate IsPathDatom(d: seq<Atom>)
  {
    |d| == 5 && d[1] == Str("path")
  }

  /** Index of the first changed block that carries a path. */
  function FirstPathBlock(blocks: seq<ChangedBlock>): (r: Option<nat>)
    ensures r.Some? ==> r.value < |blocks| && blocks[r.value].path.Some?
    ensures r.Some? ==> forall j :: 0 <= j < r.value ==> blocks[j].path.None?
    ensures r.None? ==> forall j :: 0 <= j < |blocks| ==> blocks[j].path.None?
  {
    if blocks == [] then None
    else if blocks[0].path.Some? then Some(0)
    else match FirstPathBlock(blocks[1..])
      case Some(k) => Some(k + 1)
      case None => None
  }

  /** Index of the first datom of the `path` shape. */
  function FirstPathDatom(txData: seq<seq<Atom>>): (r: Option<nat>)
    ensures r.Some? ==> r.value < |txData| && IsPathDatom(txData[r.value])
    ensures r.Some? ==> forall j :: 0 <= j < r.value ==> !IsPathDatom(txData[j])
    ensures r.None? ==> forall j :: 0 <= j < |txData| ==> !IsPathDatom(txData[j])
  {
    if txData == [] then None
    else if IsPathDatom(txData[0]) then Some(0)
    else match FirstPathDatom(txData[1..])
      case Some(k) => Some(k + 1)
      case None => None
  }

  /** What parseOperation returns: a modification when the first datom
      updates `lastModifiedAt` and some changed block has a path (that of the
      first such block); otherwise a creation or deletion from the first
      `path` datom (deletion exactly when its `added` flag is `false`);
      otherwise no operation. */
  function Classify(changes: Changes): Classified
  {
    var b := FirstPathBlock(changes.blocks);
    if FirstDatomIsLastModified(changes.txData) && b.Some? then
      Classified(Modified, Str(changes.blocks[b.value].path.value))
    else
      match FirstPathDatom(changes.txData)
      case Some(k) =>
        var d := changes.txData[k];
        Classified(if d[4] == Bool(false) then Delete else Create, d[2])
      case None => Classified(NoOperation, Str(""))
  }

  /** parseOperation, with its two scans and early exits. */
  method ParseOperation(changes: Changes) returns (operation: Operation, path: Atom)
    ensures Classified(operation, path) == Classify(changes)
  {
    operation := NoOperation;
    path := Str("");
    var i := 0;
    while i < |changes.blocks|
      invariant 0 <= i <= |changes.blocks|
      invariant operation == NoOperation && path == Str("")
      invariant forall j :: 0 <= j < i ==>
        changes.blocks[j].path.None? || !FirstDatomIsLastModified(changes.txData)
    {
      var block := changes.blocks[i];
      if block.path.Some? {
        if |changes.txData| == 0 {
          i := i + 1;
          continue;
        }
        if |changes.txData[0]| > 1 && changes.txData[0][1] == Str("lastModifiedAt") {
          operation := Modified;
          path := Str(block.path.value);
          break;
        }
      }
      i := i + 1;
    }
    if operation == NoOperation {
      var k := 0;
      while k < |changes.txData|
        invariant 0 <= k <= |changes.txData|
        invariant operation == NoOperation && path == Str("")
        invariant forall j :: 0 <= j < k ==> !IsPathDatom(changes.txData[j])
      {
        var data := changes.txData[k];
        if |data| == 5 && data[1] == Str("path") {
          path := data[2];
          var createOrDelete := Create;
          if data[4] == Bool(false) {
            createOrDelete := Delete;
          }
          operation := createOrDelete;
          break;
        }
        k := k + 1;
      }
    }
  }

  /** A `lastModifiedAt` batch with a file block is a modification of the
      first file block's path, whatever `path` datoms the batch also holds:
      the first scan takes precedence over the second. */
  lemma ModifiedTakesPrecedence(changes: Changes, k: nat)
    requires FirstDatomIsLastModified(changes.txData)
    requires k < |changes.blocks| && changes.blocks[k].path.Some?
    requires forall j :: 0 <= j < k ==> changes.blocks[j].path.None?
    ensures Classify(changes) == Classified(Modified, Str(changes.blocks[k].path.value))
  {
    var b := FirstPathBlock(changes.blocks);
    assert b.Some?;
    assert b.value == k;
  }

  /** A modification is reported exactly in that case. */
  lemma ModifiedExactly(changes: Changes)
    ensures Classify(changes).op == Modified <==>
      FirstDatomIsLastModified(changes.txData) &&
      exists j :: 0 <= j < |changes.blocks| && changes.blocks[j].path.Some?
  {
    var b := FirstPathBlock(changes.blocks);
    if b.Some? {
      assert changes.blocks[b.value].path.Some?;
    }
  }

  /** Otherwise the first `path` datom decides: a deletion exactly when its
      `added` flag (element 4) is `false`, else a creation, with element 2 as
      the path. */
  lemma CreateOrDeleteFromFirstPathDatom(changes: Changes, k: nat)
    requires !FirstDatomIsLastModified(changes.txData) ||
      forall j :: 0 <= j < |changes.blocks| ==> changes.blocks[j].path.None?
    requires k < |changes.txData| && IsPathDatom(changes.txData[k])
    requires forall j :: 0 <= j < k ==> !IsPathDatom(changes.txData[j])
    ensures Classify(changes).path == changes.txData[k][2]
    ensures Classify(changes).op == Delete <==> changes.txData[k][4] == Bool(false)
    ensures Classify(changes).op == Create <==> changes.txData[k][4] != Bool(false)
  {
    var d := FirstPathDatom(changes.txData);
    assert d.Some?;
    assert d.value == k;
    if FirstPathBlock(changes.blocks).Some? {
      var b := FirstPathBlock(changes.blocks).value;
      assert changes.blocks[b].path.Some?;
    }
  }

  /** A batch matching neither scan is no operation, with the empty path. */
  lemma NoOperationOtherwise(changes: Changes)
    requires !FirstDatomIsLastModified(changes.txData) ||
      forall j :: 0 <= j < |changes.blocks| ==> changes.blocks[j].path.None?
    requires forall j :: 0 <= j < |changes.txData| ==> !IsPathDatom(changes.txData[j])
    ensures Classify(changes) == Classified(NoOperation, Str(""))
  {
    if FirstPathBlock(changes.blocks).Some? {
      var b := FirstPathBlock(changes.blocks).value;
      assert changes.blocks[b].path.Some?;
    }
  }
}
