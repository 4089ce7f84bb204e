/** The path resolver: the canonical folder of a document type's documents on
    one storage node, NodePath / mode letter / StorageFolderName / yyyy / MM. */
module PathResolver {
  import opened Failures
  import opened CivilTime
  import opened DecimalText
  import opened StoragePolicy
  import opened Entities

  /** The parts Path.Combine keeps: it skips empty components, keeps every
      other one, and so leaves a list without empty parts as it is. */
  function NonEmptyParts(parts: seq<string>): (kept: seq<string>)
    ensures forall i :: 0 <= i < |kept| ==> kept[i] != "" && kept[i] in parts
    ensures |kept| <= |parts|
  {
    if parts == [] then []
    else (if parts[0] == "" then [] else [parts[0]]) + NonEmptyParts(parts[1..])
  }

  /** Path.Combine of a base path with further components. */
  function Combine(base: Path, parts: seq<string>): Path {
    base + NonEmptyParts(parts)
  }

  /** A combined path is the base followed by at most |parts| components,
      each non-empty and taken from `parts`; without empty components the
      parts are appended as they are. */
  lemma CombineLayout(base: Path, parts: seq<string>)
    ensures var r := Combine(base, parts);
            && |base| <= |r| <= |base| + |parts| && r[..|base|] == base
            && (forall i :: |base| <= i < |r| ==> r[i] != "" && r[i] in parts)
            && ((forall i :: 0 <= i < |parts| ==> parts[i] != "") ==> r == base + parts)
  {
    if forall i :: 0 <= i < |parts| ==> parts[i] != "" {
      NonEmptyPartsKeepsAll(parts);
    }
  }

  /** A list without empty components is kept as it is. */
  lemma {:induction false} NonEmptyPartsKeepsAll(parts: seq<string>)
    requires forall i :: 0 <= i < |parts| ==> parts[i] != ""
    ensures NonEmptyParts(parts) == parts
  {
    if parts != [] {
      NonEmptyPartsKeepsAll(parts[1..]);
    }
  }

  lemma NonEmptyPartsCons(first: string, rest: seq<string>)
    ensures NonEmptyParts([first] + rest)
            == (if first == "" then [] else [first]) + NonEmptyParts(rest)
  {
  }

  /** ComputeStorageFullName: the folder a document of type `dt` is written
      to on node `nodeId` at instant `now`. Fails for an unknown node, a node
      the type does not reference, an unnamed mode, and a temporal segment
      that cannot be computed. */
  function ComputeStorageFullName(nodes: map<int, StorageNode>, dt: DocumentType,
                                  nodeId: int, now: Instant): (r: Result<Path>)
    requires WellFormed(now)
    ensures nodeId !in nodes ==> r == Failure(NodeNotFound)
    ensures nodeId in nodes && !IsAssociated(dt, nodeId) ==> r == Failure(NodeNotAssociated)
    ensures nodeId in nodes && IsAssociated(dt, nodeId) && dt.storageMode.Unnamed?
            ==> r == Failure(InvalidMode)
    ensures nodeId in nodes && IsAssociated(dt, nodeId) && !dt.storageMode.Unnamed?
            && FolderInstant(dt.storageMode, dt.inActiveLifeTime, now).Failure?
            ==> r == Failure(FolderInstant(dt.storageMode, dt.inActiveLifeTime, now).error)
    ensures r.Success? <==> && nodeId in nodes && IsAssociated(dt, nodeId)
                            && !dt.storageMode.Unnamed?
                            && FolderInstant(dt.storageMode, dt.inActiveLifeTime, now).Success?
  {
    if nodeId !in nodes then Failure(NodeNotFound)
    else if !IsAssociated(dt, nodeId) then Failure(NodeNotAssociated)
    else
      var letter :- ModeLetter(dt.storageMode);
      var date :- DatePath(dt.storageMode, dt.inActiveLifeTime, now);
      Success(Combine(nodes[nodeId].nodePath, [letter, dt.storageFolderName] + date))
  }

  /** A computed path reads back as: the node's path, the letter of the
      type's mode, the type's folder name (absent when empty), then the
      four-digit year and two-digit month of the folder instant. */
  lemma {:induction false} StorageFullNameLayout(nodes: map<int, StorageNode>, dt: DocumentType,
                                                 nodeId: int, now: Instant)
    requires WellFormed(now)
    requires ComputeStorageFullName(nodes, dt, nodeId, now).Success?
    ensures var r := ComputeStorageFullName(nodes, dt, nodeId, now).value;
            var np := nodes[nodeId].nodePath;
            var f := dt.storageFolderName;
            var u := FolderInstant(dt.storageMode, dt.inActiveLifeTime, now).value;
            && |r| == |np| + (if f == "" then 3 else 4)
            && r[..|np|] == np
            && ModeOfLetter(r[|np|]) == Some(dt.storageMode)
            && (f != "" ==> r[|np| + 1] == f)
            && |r[|r| - 2]| == 4 && AllDigits(r[|r| - 2]) && Value(r[|r| - 2]) == u.year
            && |r[|r| - 1]| == 2 && AllDigits(r[|r| - 1]) && Value(r[|r| - 1]) == u.month
  {
    var letter := ModeLetter(dt.storageMode).value;
    var date := DatePath(dt.storageMode, dt.inActiveLifeTime, now).value;
    var f := dt.storageFolderName;
    DatePathReadsBack(dt.storageMode, dt.inActiveLifeTime, now);
    NonEmptyPartsKeepsAll(date);
    NonEmptyPartsCons(f, date);
    NonEmptyPartsCons(letter, [f] + date);
    assert [letter, f] + date == [letter] + ([f] + date);
  }

  /** A Temporary document's folder starts with NodePath / T. */
  lemma TemporaryFolderPrefix(nodes: map<int, StorageNode>, dt: DocumentType,
                              nodeId: int, now: Instant)
    requires WellFormed(now) && dt.storageMode == Temporary
    requires nodeId in nodes && IsAssociated(dt, nodeId)
    requires FolderInstant(Temporary, dt.inActiveLifeTime, now).Success?
    ensures ComputeStorageFullName(nodes, dt, nodeId, now).Success?
    ensures var r := ComputeStorageFullName(nodes, dt, nodeId, now).value;
            var np := nodes[nodeId].nodePath;
            |np| < |r| && r[..|np| + 1] == np + ["T"]
  {
  }

  /** Joining the folder name before the mode letter names the same path as
      joining it after, exactly when the folder name is empty or equal to the
      letter. */
  lemma FolderLetterOrder(np: Path, letter: string, folder: string, date: seq<string>)
    requires letter != ""
    ensures Combine(np, [letter, folder] + date) == Combine(np, [folder, letter] + date)
            <==> folder == "" || folder == letter
  {
    var f: seq<string> := if folder == "" then [] else [folder];
    var rest := NonEmptyParts(date);
    NonEmptyPartsCons(folder, date);
    NonEmptyPartsCons(letter, date);
    NonEmptyPartsCons(letter, [folder] + date);
    NonEmptyPartsCons(folder, [letter] + date);
    assert [letter, folder] + date == [letter] + ([folder] + date);
    assert [folder, letter] + date == [folder] + ([letter] + date);
    var a := np + ([letter] + (f + rest));
    var b := np + (f + ([letter] + rest));
    assert Combine(np, [letter, folder] + date) == a;
    assert Combine(np, [folder, letter] + date) == b;
    if folder != "" && folder != letter {
      assert a[|np|] == letter && b[|np|] == folder;
    }
  }

}
