/** The staging writer (`mongodb_upload_data.py`): each dataset's records are loaded into
    a document-store collection of a given name, dropping the collection first when it
    exists, then inserting the records one at a time in file order. The database is a map
    from collection name to the documents stored in it; a collection exists exactly when
    it holds a document, as in the store, where a collection is created by its first
    insert and removed by a drop. */
module MongoStaging {
  import opened Records

  /** The collections after a reload of `name` with `data`: `name` holds exactly `data`
      (and does not exist when `data` is empty), and every other collection is as
      before. */
  function Staged(before: map<string, seq<Document>>, name: string, data: seq<Document>): map<string, seq<Document>> {
    if data == [] then before - {name} else before[name := data]
  }

  /** After a reload the collection holds exactly the file's records, whatever it held
      before; an empty file leaves no collection of that name. */
  lemma StagedContents(before: map<string, seq<Document>>, name: string, data: seq<Document>)
    ensures var after := Staged(before, name, data);
      && (name in after <==> data != [])
      && (name in after ==> after[name] == data && multiset(after[name]) == multiset(data))
  {
  }

  /** Collections with other names are unchanged by a reload. */
  lemma StagedOthers(before: map<string, seq<Document>>, name: string, data: seq<Document>, other: string)
    requires other != name
    ensures var after := Staged(before, name, data);
      && (other in after <==> other in before)
      && (other in before ==> after[other] == before[other])
  {
  }

  /** Reloading twice with the same file leaves the same collections as reloading once. */
  lemma StagedIdempotent(before: map<string, seq<Document>>, name: string, data: seq<Document>)
    ensures Staged(Staged(before, name, data), name, data) == Staged(before, name, data)
  {
  }

  /** What the collection `name` holds: its documents, or nothing. */
  function Holding(collections: map<string, seq<Document>>, name: string): seq<Document> {
    if name in collections then collections[name] else []
  }

  /** Inserting the records one at a time into a dropped collection gives the reload of the
      records inserted so far: a prefix of the file plus the next record is the reload of
      the longer prefix. */
  lemma StagedSnoc(before: map<string, seq<Document>>, name: string, data: seq<Document>, k: nat)
    requires k < |data|
    ensures var now := Staged(before, name, data[..k]);
      now[name := Holding(now, name) + [data[k]]] == Staged(before, name, data[..k + 1])
  {
    var now := Staged(before, name, data[..k]);
    assert data[..k + 1] == data[..k] + [data[k]];
    if k > 0 {
      assert data[..k] != [];
    }
  }

  /** The document database the pipeline stages into. */
  class StagingStore {
    var collections: map<string, seq<Document>>

    constructor ()
      ensures collections == map[]
    {
      collections := map[];
    }

    /** `usadb.list_collection_names()`. */
    function CollectionNames(): (names: set<string>)
      reads this
      ensures forall n :: n in names <==> n in collections
    {
      collections.Keys
    }

    /** `collection.drop()`: the collection and its documents are removed. */
    method Drop(name: string)
      modifies this
      ensures collections == old(collections) - {name}
    {
      collections := collections - {name};
    }

    /** `collection.insert_one(record)`: the record is appended, the collection being
        created by its first insert. */
    method InsertOne(name: string, record: Document)
      modifies this
      ensures collections == old(collections)[name := Holding(old(collections), name) + [record]]
    {
      collections := collections[name := Holding(collections, name) + [record]];
    }

    /** The body shared by the three insert functions: drop the collection if its name is
        listed, then insert every record in file order. Reports whether it dropped. */
    method Reload(name: string, data: seq<Document>) returns (dropped: bool)
      modifies this
      ensures dropped <==> name in old(collections)
      ensures collections == Staged(old(collections), name, data)
    {
      dropped := name in CollectionNames();
      if dropped {
        Drop(name);
      }
      assert data[..0] == [];
      var k := 0;
      while k < |data|
        invariant 0 <= k <= |data|
        invariant collections == Staged(old(collections), name, data[..k])
      {
        StagedSnoc(old(collections), name, data, k);
        InsertOne(name, data[k]);
        k := k + 1;
      }
      assert data[..k] == data;
    }

    /** `insert_unemp_data`. */
    method InsertUnempData(unempCollectionName: string, data: seq<Document>) returns (dropped: bool)
      modifies this
      ensures dropped <==> unempCollectionName in old(collections)
      ensures collections == Staged(old(collections), unempCollectionName, data)
    {
      dropped := Reload(unempCollectionName, data);
    }

    /** `insert_education_data`. The handle rebound after the drop is never used; inserts
        go through the handle taken before it, which names the same collection, so the
        effect is the same as for the other datasets. */
    method InsertEducationData(eduCollectionName: string, data: seq<Document>) returns (dropped: bool)
      modifies this
      ensures dropped <==> eduCollectionName in old(collections)
      ensures collections == Staged(old(collections), eduCollectionName, data)
    {
      dropped := Reload(eduCollectionName, data);
    }

    /** `insert_crime_data`. */
    method InsertCrimeData(crimeCollectionName: string, data: seq<Document>) returns (dropped: bool)
      modifies this
      ensures dropped <==> crimeCollectionName in old(collections)
      ensures collections == Staged(old(collections), crimeCollectionName, data)
    {
      dropped := Reload(crimeCollectionName, data);
    }
  }
}
