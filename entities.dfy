/** The records the engine reads and writes, shaped after the columns of the
    StorageNodes, DocumentTypes, StoredDocuments and ExpiringDocuments tables.
    A path is a sequence of segments rather than a separator-joined string. */
module Entities {
  import opened Failures
  import opened CivilTime
  import opened StoragePolicy

  type Path = seq<string>

  newtype byte = x: int | 0 <= x < 256

  /** A registered root location that document bytes are written under. */
  datatype StorageNode = StorageNode(
    id: int,
    name: string,
    description: string,
    nodePath: Path,
    isActive: bool,
    isTestNode: bool)

  /** The policy attached to every document of a type. */
  datatype DocumentType = DocumentType(
    id: int,
    name: string,
    description: string,
    storageFolderName: string,
    storageMode: StorageMode,
    inActiveLifeTime: Lifetime,
    applicationId: int,
    activeStorageNode1Id: Option<int>,
    activeStorageNode2Id: Option<int>,
    archivalStorageNode1Id: Option<int>,
    archivalStorageNode2Id: Option<int>,
    isActive: bool)

  /** The node is one of the type's two active or two archival references. */
  predicate IsAssociated(dt: DocumentType, nodeId: int) {
    || dt.activeStorageNode1Id == Some(nodeId)
    || dt.activeStorageNode2Id == Some(nodeId)
    || dt.archivalStorageNode1Id == Some(nodeId)
    || dt.archivalStorageNode2Id == Some(nodeId)
  }

  /** One logical document; its id survives replacement of its content. */
  datatype StoredDocument = StoredDocument(
    id: int,
    fileName: string,
    description: string,
    storageFolder: Path,
    isAlive: bool,
    documentTypeId: int,
    primaryStorageNodeId: Option<int>,
    secondaryStorageNodeId: Option<int>,
    createdAtUtc: Instant,
    modifiedAtUtc: Option<Instant>,
    isActive: bool)

  /** FileNameAndPath: where the document's bytes live. */
  function FileNameAndPath(d: StoredDocument): Path {
    d.storageFolder + [d.fileName]
  }

  predicate EndsWith(s: string, suffix: string) {
    |suffix| <= |s| && s[|s| - |suffix|..] == suffix
  }

  /** The generated file name: a unique key, a dot, the supplied extension. */
  function FileNameFor(key: string, extension: string): (name: string)
    ensures EndsWith(name, extension) && |name| > |extension|
  {
    key + "." + extension
  }

  /** Different keys give different file names for the same extension. */
  lemma FileNameForInjective(key1: string, key2: string, extension: string)
    requires key1 != key2
    ensures FileNameFor(key1, extension) != FileNameFor(key2, extension)
  {
    var tail := "." + extension;
    assert FileNameFor(key1, extension) == key1 + tail;
    assert FileNameFor(key2, extension) == key2 + tail;
    if |key1| == |key2| {
      var i :| 0 <= i < |key1| && key1[i] != key2[i];
      assert (key1 + tail)[i] != (key2 + tail)[i];
    }
  }

  /** The StoredDocument constructor: a not yet persisted row (id 0) whose
      file name is generated from `key` and keeps the extension. */
  function NewStoredDocument(key: string, fileExtension: string, description: string,
                             storageFolder: Path, documentTypeId: int,
                             primaryStorageNodeId: Option<int>, now: Instant): (d: StoredDocument)
    ensures EndsWith(d.fileName, fileExtension)
    ensures d.description == description && d.documentTypeId == documentTypeId
  {
    StoredDocument(0, FileNameFor(key, fileExtension), description, storageFolder, true,
                   documentTypeId, primaryStorageNodeId, None, now, None, true)
  }
}
