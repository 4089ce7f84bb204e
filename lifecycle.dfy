/** The lifecycle engine (DocumentServerEngine): stores a document for the
    first time, writes bytes to a storage node, reads a document back and
    replaces a document's content under the same id. The file system, the
    StoredDocuments table and the ExpiringDocuments table are in-memory maps
    the operations update in place. */
module Lifecycle {
  import opened Failures
  import opened CivilTime
  import opened StoragePolicy
  import opened Entities
  import opened PathResolver

  /** TransferDocumentDto: an upload. The content is the decoded bytes of
      its base64 transfer form. */
  datatype TransferDocument = TransferDocument(
    documentTypeId: int,
    description: string,
    fileExtension: string,
    content: seq<byte>)

  /** ReplacementDto: new content for the document with id `currentId`. */
  datatype ReplacementRequest = ReplacementRequest(
    currentId: int,
    description: string,
    fileExtension: string,
    content: seq<byte>)

  /** Every row is keyed by its own id, at least 1 and below nextId. */
  ghost predicate RowsKeyed(docs: map<int, StoredDocument>, nextId: int) {
    && 1 <= nextId
    && forall id :: id in docs ==> docs[id].id == id && 1 <= id < nextId
  }

  /** Every row's file exists on storage, and no two rows share a file. */
  ghost predicate FilesBacked(docs: map<int, StoredDocument>, fs: map<Path, seq<byte>>) {
    && (forall id :: id in docs ==> FileNameAndPath(docs[id]) in fs)
    && (forall i, j :: i in docs && j in docs && i != j
          ==> FileNameAndPath(docs[i]) != FileNameAndPath(docs[j]))
  }

  /** A row has an ExpiringDocuments entry exactly when it is not alive. */
  ghost predicate ExpiryMatchesAlive(docs: map<int, StoredDocument>, expiring: map<int, Instant>) {
    forall id :: id in expiring <==> id in docs && !docs[id].isAlive
  }

  ghost predicate StateValid(docs: map<int, StoredDocument>, fs: map<Path, seq<byte>>,
                             expiring: map<int, Instant>, nextId: int) {
    RowsKeyed(docs, nextId) && FilesBacked(docs, fs) && ExpiryMatchesAlive(docs, expiring)
  }

  ghost predicate NameUnusedIn(fs: map<Path, seq<byte>>, name: string) {
    forall p :: p in fs && |p| > 0 ==> p[|p| - 1] != name
  }

  /** A file name no stored file has gives a path not yet on storage. */
  lemma UnusedNameFreshPath(fs: map<Path, seq<byte>>, folder: Path, name: string)
    requires NameUnusedIn(fs, name)
    ensures folder + [name] !in fs
  {
  }

  /** Writing any file keeps the tables and storage in agreement. */
  lemma WriteKeepsValid(docs: map<int, StoredDocument>, fs: map<Path, seq<byte>>,
                        expiring: map<int, Instant>, nextId: int, p: Path, content: seq<byte>)
    requires StateValid(docs, fs, expiring, nextId)
    ensures StateValid(docs, fs[p := content], expiring, nextId)
  {
  }

  /** Recording a new row, with its freshly written file and, when it is not
      alive, its expiration, keeps the tables and storage in agreement. */
  lemma InsertKeepsValid(docs: map<int, StoredDocument>, fs: map<Path, seq<byte>>,
                                            expiring: map<int, Instant>, nextId: int,
                                            d: StoredDocument, expiration: Instant)
    requires StateValid(docs, fs, expiring, nextId)
    requires d.id == nextId
    requires FileNameAndPath(d) in fs
    requires forall id :: id in docs ==> FileNameAndPath(docs[id]) != FileNameAndPath(d)
    ensures StateValid(docs[d.id := d], fs, if d.isAlive then expiring else expiring[d.id := expiration],
                       nextId + 1)
  {
  }

  /** Updating a row in place to a new file (alive flag kept), then deleting
      its previous file, keeps the tables and storage in agreement and the
      number of files unchanged. */
  lemma ReplaceKeepsValid(docs: map<int, StoredDocument>, fs: map<Path, seq<byte>>,
                                             expiring: map<int, Instant>, nextId: int,
                                             d: StoredDocument, content: seq<byte>)
    requires StateValid(docs, fs, expiring, nextId)
    requires d.id in docs && d.isAlive == docs[d.id].isAlive
    requires FileNameAndPath(d) !in fs
    ensures var fs' := fs[FileNameAndPath(d) := content] - {FileNameAndPath(docs[d.id])};
            && StateValid(docs[d.id := d], fs', expiring, nextId)
            && FileNameAndPath(docs[d.id]) !in fs'
            && |fs'| == |fs|
  {
  }

  /** The checks a store makes before writing anything: the document type
      must exist and be active, it must name a first active storage node, and
      the folder on that node must be computable. Yields that folder, or the
      first check's failure. */
  function Placement(nodes: map<int, StorageNode>, types: map<int, DocumentType>,
                     typeId: int, now: Instant): (r: Result<Path>)
    requires WellFormed(now)
    ensures typeId !in types || !types[typeId].isActive ==> r == Failure(DocumentTypeNotFound)
    ensures typeId in types && types[typeId].isActive && types[typeId].activeStorageNode1Id.None?
            ==> r == Failure(NoStorageNodeConfigured)
    ensures r.Success? <==> && typeId in types && types[typeId].isActive
                            && types[typeId].activeStorageNode1Id.Some?
                            && ComputeStorageFullName(nodes, types[typeId],
                                                      types[typeId].activeStorageNode1Id.value, now).Success?
    ensures typeId in types && types[typeId].isActive && types[typeId].activeStorageNode1Id.Some?
            ==> r == ComputeStorageFullName(nodes, types[typeId], types[typeId].activeStorageNode1Id.value, now)
  {
    if typeId !in types || !types[typeId].isActive then Failure(DocumentTypeNotFound)
    else if types[typeId].activeStorageNode1Id.None? then Failure(NoStorageNodeConfigured)
    else ComputeStorageFullName(nodes, types[typeId], types[typeId].activeStorageNode1Id.value, now)
  }

  class DocumentServerEngine {
    /** The metadata the engine only reads: the node registry and the document types. */
    const storageNodes: map<int, StorageNode>
    const documentTypes: map<int, DocumentType>

    /** The storage medium: file path to bytes. */
    var fileSystem: map<Path, seq<byte>>
    /** StoredDocuments, keyed by id. */
    var storedDocuments: map<int, StoredDocument>
    /** ExpiringDocuments: expiration instant, keyed by StoredDocumentId. */
    var expiringDocuments: map<int, Instant>
    /** The next value of the StoredDocuments identity column. */
    var nextId: int

    /** The tables and the storage medium agree; see StateValid. */
    ghost predicate Valid()
      reads this
    {
      StateValid(storedDocuments, fileSystem, expiringDocuments, nextId)
    }

    /** No file on storage has this name: what the unique-key generator
        guarantees of a freshly generated file name. */
    ghost predicate NameUnused(name: string)
      reads this
    {
      NameUnusedIn(fileSystem, name)
    }

    constructor (storageNodes: map<int, StorageNode>, documentTypes: map<int, DocumentType>)
      ensures Valid()
      ensures this.storageNodes == storageNodes && this.documentTypes == documentTypes
      ensures fileSystem == map[] && storedDocuments == map[] && expiringDocuments == map[]
      ensures nextId == 1
    {
      this.storageNodes := storageNodes;
      this.documentTypes := documentTypes;
      fileSystem := map[];
      storedDocuments := map[];
      expiringDocuments := map[];
      nextId := 1;
    }

    /** StoreFileOnStorageMediaAsync: computes the folder for the document
        type on the node, records it in the document, and writes the content
        at folder / file name. Nothing is written when the folder cannot be
        computed. */
    method StoreFileOnStorageMedia(doc: StoredDocument, docType: DocumentType, nodeId: int,
                                   content: seq<byte>, now: Instant)
      returns (r: Result<StoredDocument>)
      requires WellFormed(now) && Valid()
      modifies this
      ensures Valid()
      ensures storedDocuments == old(storedDocuments) && expiringDocuments == old(expiringDocuments)
      ensures nextId == old(nextId)
      ensures var folder := ComputeStorageFullName(storageNodes, docType, nodeId, now);
              && (folder.Failure? ==> r == Failure(folder.error) && fileSystem == old(fileSystem))
              && (folder.Success? ==>
                    && r == Success(doc.(storageFolder := folder.value))
                    && fileSystem == old(fileSystem)[folder.value + [doc.fileName] := content])
    {
      var folder := ComputeStorageFullName(storageNodes, docType, nodeId, now);
      if folder.Failure? {
        return Failure(folder.error);
      }
      var placed := doc.(storageFolder := folder.value);
      WriteKeepsValid(storedDocuments, fileSystem, expiringDocuments, nextId, FileNameAndPath(placed), content);
      fileSystem := fileSystem[FileNameAndPath(placed) := content];
      r := Success(placed);
    }

    /** StoreDocumentFirstTimeAsync: writes the upload under its type's first
        active node, then records a new row (and, for a Temporary type, its
        expiration). Any failure leaves storage and tables untouched. */
    method StoreDocumentFirstTime(upload: TransferDocument, key: string, now: Instant)
      returns (r: Result<StoredDocument>)
      requires WellFormed(now) && Valid()
      requires NameUnused(FileNameFor(key, upload.fileExtension))
      modifies this
      ensures Valid()
      ensures r.Failure? ==> && fileSystem == old(fileSystem) && storedDocuments == old(storedDocuments)
                             && expiringDocuments == old(expiringDocuments) && nextId == old(nextId)
      ensures var placement := Placement(storageNodes, documentTypes, upload.documentTypeId, now);
              && (placement.Failure? ==> r == Failure(placement.error))
              && (placement.Success? ==> r.Success? && r.value.storageFolder == placement.value)
      ensures r.Success? ==>
                var d := r.value;
                && upload.documentTypeId in documentTypes
                && var dt := documentTypes[upload.documentTypeId];
                && d.id == old(nextId) && d.id !in old(storedDocuments)
                && nextId == old(nextId) + 1
                && d.fileName == FileNameFor(key, upload.fileExtension)
                && EndsWith(d.fileName, upload.fileExtension)
                && d.documentTypeId == upload.documentTypeId
                && d.description == upload.description
                && d.primaryStorageNodeId == dt.activeStorageNode1Id
                && d.secondaryStorageNodeId == dt.activeStorageNode2Id
                && d.createdAtUtc == now
                && d.isAlive == (dt.storageMode != Temporary)
                && storedDocuments == old(storedDocuments)[d.id := d]
                && FileNameAndPath(d) !in old(fileSystem)
                && fileSystem == old(fileSystem)[FileNameAndPath(d) := upload.content]
                && expiringDocuments ==
                     if dt.storageMode == Temporary
                     then old(expiringDocuments)[d.id := FolderInstant(dt.storageMode, dt.inActiveLifeTime, now).value]
                     else old(expiringDocuments)
    {
      if upload.documentTypeId !in documentTypes || !documentTypes[upload.documentTypeId].isActive {
        return Failure(DocumentTypeNotFound);
      }
      var dt := documentTypes[upload.documentTypeId];
      if dt.activeStorageNode1Id.None? {
        return Failure(NoStorageNodeConfigured);
      }
      var doc := NewStoredDocument(key, upload.fileExtension, upload.description, [],
                                   upload.documentTypeId, dt.activeStorageNode1Id, now);
      var written := StoreFileOnStorageMedia(doc, dt, dt.activeStorageNode1Id.value, upload.content, now);
      if written.Failure? {
        return Failure(written.error);
      }
      var d := written.value.(id := nextId, isAlive := dt.storageMode != Temporary,
                              secondaryStorageNodeId := dt.activeStorageNode2Id);
      UnusedNameFreshPath(old(fileSystem), d.storageFolder, d.fileName);
      assert forall id :: id in storedDocuments ==> FileNameAndPath(storedDocuments[id]) != FileNameAndPath(d);
      var expiration := if dt.storageMode == Temporary
                        then FolderInstant(dt.storageMode, dt.inActiveLifeTime, now).value
                        else now;
      RecordNewDocument(d, expiration);
      r := Success(d);
    }

    /** Adds the row of a document whose file was just written, advances the
        identity column and, for a row that is not alive, records its
        expiration. */
    method RecordNewDocument(d: StoredDocument, expiration: Instant)
      requires Valid()
      requires d.id == nextId && FileNameAndPath(d) in fileSystem
      requires forall id :: id in storedDocuments ==> FileNameAndPath(storedDocuments[id]) != FileNameAndPath(d)
      modifies this
      ensures Valid()
      ensures storedDocuments == old(storedDocuments)[d.id := d] && nextId == old(nextId) + 1
      ensures expiringDocuments == if d.isAlive then old(expiringDocuments)
                                   else old(expiringDocuments)[d.id := expiration]
      ensures fileSystem == old(fileSystem)
    {
      InsertKeepsValid(storedDocuments, fileSystem, expiringDocuments, nextId, d, expiration);
      storedDocuments := storedDocuments[d.id := d];
      nextId := nextId + 1;
      if !d.isAlive {
        expiringDocuments := expiringDocuments[d.id := expiration];
      }
    }

    /** ReadStoredDocumentAsync: the content of the row's file. A missing row
        and a row whose file is missing are told apart; in a valid engine
        every row's file can be read. */
    method ReadStoredDocument(id: int) returns (r: Result<seq<byte>>)
      ensures id !in storedDocuments ==> r == Failure(DocumentNotFound)
      ensures id in storedDocuments ==>
                var p := FileNameAndPath(storedDocuments[id]);
                r == if p in fileSystem then Success(fileSystem[p]) else Failure(FileNotFound)
      ensures Valid() ==> (r.Success? <==> id in storedDocuments)
    {
      if id !in storedDocuments {
        return Failure(DocumentNotFound);
      }
      var p := FileNameAndPath(storedDocuments[id]);
      if p !in fileSystem {
        return Failure(FileNotFound);
      }
      r := Success(fileSystem[p]);
    }

    /** StoreReplacementDocumentAsync: writes the new content under a newly
        generated name, updates the row in place (same id, type, creation
        time and alive flag; new file name, folder and description), then
        deletes the previous file. The number of files on storage is unchanged. */
    method StoreReplacementDocument(request: ReplacementRequest, key: string, now: Instant)
      returns (r: Result<StoredDocument>)
      requires WellFormed(now) && Valid()
      requires NameUnused(FileNameFor(key, request.fileExtension))
      modifies this
      ensures Valid()
      ensures nextId == old(nextId) && expiringDocuments == old(expiringDocuments)
      ensures request.currentId !in old(storedDocuments) ==> r == Failure(DocumentNotFound)
      ensures request.currentId in old(storedDocuments) ==>
                var placement := Placement(storageNodes, documentTypes,
                                           old(storedDocuments)[request.currentId].documentTypeId, now);
                && (placement.Failure? ==> r == Failure(placement.error))
                && (placement.Success? ==> r.Success? && r.value.storageFolder == placement.value)
      ensures r.Failure? ==> fileSystem == old(fileSystem) && storedDocuments == old(storedDocuments)
      ensures r.Success? ==>
                && request.currentId in old(storedDocuments)
                && var prev := old(storedDocuments)[request.currentId];
                && var d := r.value;
                && prev.documentTypeId in documentTypes
                && var dt := documentTypes[prev.documentTypeId];
                && dt.isActive
                && d.id == prev.id == request.currentId
                && d.fileName != prev.fileName
                && d.fileName == FileNameFor(key, request.fileExtension)
                && EndsWith(d.fileName, request.fileExtension)
                && d.description == request.description
                && d.documentTypeId == prev.documentTypeId
                && d.createdAtUtc == prev.createdAtUtc
                && d.isAlive == prev.isAlive
                && d.modifiedAtUtc == Some(now)
                && d.primaryStorageNodeId == dt.activeStorageNode1Id
                && d.secondaryStorageNodeId == dt.activeStorageNode2Id
                && storedDocuments == old(storedDocuments)[d.id := d]
                && FileNameAndPath(d) in fileSystem && fileSystem[FileNameAndPath(d)] == request.content
                && FileNameAndPath(prev) !in fileSystem
                && fileSystem == old(fileSystem)[FileNameAndPath(d) := request.content] - {FileNameAndPath(prev)}
                && |fileSystem| == |old(fileSystem)|
    {
      if request.currentId !in storedDocuments {
        return Failure(DocumentNotFound);
      }
      var prev := storedDocuments[request.currentId];
      if prev.documentTypeId !in documentTypes || !documentTypes[prev.documentTypeId].isActive {
        return Failure(DocumentTypeNotFound);
      }
      var dt := documentTypes[prev.documentTypeId];
      if dt.activeStorageNode1Id.None? {
        return Failure(NoStorageNodeConfigured);
      }
      r := ReplaceStoredFile(prev, dt, request, key, now);
    }

    /** The write and update steps of a replacement, once the row and its
        type's first active node are known: the new content goes to a newly
        named file in the type's folder, the row is updated in place, and the
        row's previous file is deleted. */
    method ReplaceStoredFile(prev: StoredDocument, dt: DocumentType, request: ReplacementRequest,
                             key: string, now: Instant)
      returns (r: Result<StoredDocument>)
      requires WellFormed(now) && Valid()
      requires prev.id in storedDocuments && storedDocuments[prev.id] == prev
      requires dt.activeStorageNode1Id.Some?
      requires NameUnused(FileNameFor(key, request.fileExtension))
      modifies this
      ensures Valid()
      ensures nextId == old(nextId) && expiringDocuments == old(expiringDocuments)
      ensures var folder := ComputeStorageFullName(storageNodes, dt, dt.activeStorageNode1Id.value, now);
              && (folder.Failure? ==> && r == Failure(folder.error)
                                      && fileSystem == old(fileSystem) && storedDocuments == old(storedDocuments))
              && (folder.Success? ==> r.Success? && r.value.storageFolder == folder.value)
      ensures r.Success? ==>
                var d := r.value;
                && d == prev.(fileName := FileNameFor(key, request.fileExtension),
                              description := request.description,
                              modifiedAtUtc := Some(now),
                              primaryStorageNodeId := dt.activeStorageNode1Id,
                              secondaryStorageNodeId := dt.activeStorageNode2Id,
                              storageFolder := d.storageFolder)
                && d.fileName != prev.fileName
                && storedDocuments == old(storedDocuments)[d.id := d]
                && FileNameAndPath(prev) !in fileSystem
                && fileSystem == old(fileSystem)[FileNameAndPath(d) := request.content] - {FileNameAndPath(prev)}
                && |fileSystem| == |old(fileSystem)|
    {
      var doc := prev.(fileName := FileNameFor(key, request.fileExtension),
                       description := request.description,
                       modifiedAtUtc := Some(now),
                       primaryStorageNodeId := dt.activeStorageNode1Id,
                       secondaryStorageNodeId := dt.activeStorageNode2Id);
      ghost var before := fileSystem;
      var written := StoreFileOnStorageMedia(doc, dt, dt.activeStorageNode1Id.value, request.content, now);
      if written.Failure? {
        return Failure(written.error);
      }
      var d := written.value;
      UnusedNameFreshPath(before, d.storageFolder, d.fileName);
      RecordReplacement(d, request.content, before);
      r := Success(d);
    }

    /** Points an existing row at the file just written for it (`before` is
        the storage before that write), then deletes the row's previous file. */
    method RecordReplacement(d: StoredDocument, content: seq<byte>, ghost before: map<Path, seq<byte>>)
      requires StateValid(storedDocuments, before, expiringDocuments, nextId)
      requires d.id in storedDocuments && d.isAlive == storedDocuments[d.id].isAlive
      requires FileNameAndPath(d) !in before && fileSystem == before[FileNameAndPath(d) := content]
      modifies this
      ensures Valid()
      ensures storedDocuments == old(storedDocuments)[d.id := d]
      ensures fileSystem == old(fileSystem) - {FileNameAndPath(old(storedDocuments)[d.id])}
      ensures FileNameAndPath(old(storedDocuments)[d.id]) !in fileSystem && |fileSystem| == |before|
      ensures nextId == old(nextId) && expiringDocuments == old(expiringDocuments)
    {
      ReplaceKeepsValid(storedDocuments, before, expiringDocuments, nextId, d, content);
      fileSystem := fileSystem - {FileNameAndPath(storedDocuments[d.id])};
      storedDocuments := storedDocuments[d.id := d];
    }

    /** Storing a document and reading it back by its id returns exactly the
        uploaded content; the store succeeds whenever the upload's type is
        active and its folder on the first active node can be computed. */
    method StoreThenRead(upload: TransferDocument, key: string, now: Instant)
      returns (stored: Result<StoredDocument>, readBack: Result<seq<byte>>)
      requires WellFormed(now) && Valid()
      requires NameUnused(FileNameFor(key, upload.fileExtension))
      modifies this
      ensures Valid()
      ensures stored.Success? ==> readBack == Success(upload.content)
      ensures Placement(storageNodes, documentTypes, upload.documentTypeId, now).Success? ==> stored.Success?
    {
      stored := StoreDocumentFirstTime(upload, key, now);
      if stored.Failure? {
        return stored, Failure(stored.error);
      }
      readBack := ReadStoredDocument(stored.value.id);
    }

    /** A first-time store followed by a replacement of the same document
        with another key and the same extension: both succeed whenever the
        placement does; the row keeps its id and gets a new name, the first
        file is gone, one file more than before remains, and reading the
        document back returns the replacement's bytes. */
    method StoreThenReplace(upload: TransferDocument, key1: string, key2: string,
                            replaceDescription: string, replaceContent: seq<byte>, now: Instant)
      returns (stored: Result<StoredDocument>, replaced: Result<StoredDocument>, readBack: Result<seq<byte>>)
      requires WellFormed(now) && Valid()
      requires key1 != key2
      requires NameUnused(FileNameFor(key1, upload.fileExtension))
      requires NameUnused(FileNameFor(key2, upload.fileExtension))
      modifies this
      ensures Valid()
      ensures Placement(storageNodes, documentTypes, upload.documentTypeId, now).Success?
              ==> stored.Success? && replaced.Success?
      ensures stored.Success? && replaced.Success? ==>
                && replaced.value.id == stored.value.id
                && replaced.value.fileName != stored.value.fileName
                && replaced.value.description == replaceDescription
                && FileNameAndPath(stored.value) !in fileSystem
                && |fileSystem| == |old(fileSystem)| + 1
                && readBack == Success(replaceContent)
    {
      stored := StoreDocumentFirstTime(upload, key1, now);
      if stored.Failure? {
        return stored, Failure(stored.error), Failure(stored.error);
      }
      FileNameForInjective(key1, key2, upload.fileExtension);
      var request := ReplacementRequest(stored.value.id, replaceDescription, upload.fileExtension, replaceContent);
      replaced := StoreReplacementDocument(request, key2, now);
      readBack := ReadStoredDocument(stored.value.id);
    }
  }
}
