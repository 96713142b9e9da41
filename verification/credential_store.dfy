/**
 Credential store of the password manager.

 The store is one document mapping a website name to the credentials saved
 for it. The document may not exist yet: it is created by the first save.
 Reading and writing the document as JSON is not modelled; the document's
 content is the value `Some(map)`, and `None` stands for "file not found".
 The SHA-256 hex digest of a password is a function `digest` supplied from
 outside, about which nothing is assumed.
 */
module CredentialStore {

  datatype Option<+T> = None | Some(value: T)

  /** What is stored for one website. */
  datatype Record = Record(email: string, password: string, hash: string)

  /** The persisted document; `None` when the file does not exist. */
  type Store = Option<map<string, Record>>

  /** How a save request ended. */
  datatype SaveStatus =
    | EmptyField   // the website or the password was empty
    | Declined     // the user did not confirm the save
    | Written      // the document was written

  /** The three outcomes of a search. */
  datatype FindResult =
    | NoStore                   // the document does not exist
    | NotFound(website: string) // the document has no entry for `website`
    | Found(record: Record)     // the entry, as stored

  /** A save goes ahead only with a website, a password and a confirmation; the email may be empty. */
  predicate Accepts(website: string, password: string, confirmed: bool) {
    |website| > 0 && |password| > 0 && confirmed
  }

  /** The record a save writes for `password`. */
  function NewRecord(email: string, password: string, digest: string -> string): Record {
    Record(email, password, digest(password))
  }

  /** The document after a save request. */
  function Saved(store: Store, website: string, email: string, password: string, confirmed: bool,
                 digest: string -> string): (r: Store)
    // A rejected or declined request leaves the document as it was, absent or not.
    ensures !Accepts(website, password, confirmed) ==> r == store
    // An accepted request always leaves a document, holding the new record for `website` ...
    ensures Accepts(website, password, confirmed) ==>
      && r.Some?
      && r.value.Keys == (if store.Some? then store.value.Keys else {}) + {website}
      && r.value[website] == Record(email, password, digest(password))
    // ... and every other record exactly as it was.
    ensures Accepts(website, password, confirmed) ==>
      forall w :: w in r.value && w != website ==> store.Some? && w in store.value && r.value[w] == store.value[w]
  {
    if !Accepts(website, password, confirmed) then store
    else
      var newData := map[website := NewRecord(email, password, digest)];
      match store
      case None => Some(newData)
      case Some(data) => Some(data + newData)
  }

  /** A search for `website`. */
  function Lookup(store: Store, website: string): (r: FindResult)
    ensures r == NoStore <==> store.None?
    ensures r.NotFound? <==> store.Some? && website !in store.value
    ensures r.NotFound? ==> r.website == website
    ensures r.Found? ==> store.Some? && website in store.value && r.record == store.value[website]
  {
    match store
    case None => NoStore
    case Some(data) => if website in data then Found(data[website]) else NotFound(website)
  }

  /** The persisted password file; `Save` rewrites it in full. */
  class PasswordFile {
    var contents: Store
    const digest: string -> string

    constructor (existing: Store, digest: string -> string)
      ensures contents == existing && this.digest == digest
    {
      contents := existing;
      this.digest := digest;
    }

    /** Saves `password` and `email` for `website` once the user answers the confirmation with `confirmed`. */
    method Save(website: string, email: string, password: string, confirmed: bool) returns (status: SaveStatus)
      modifies this
      ensures status == EmptyField <==> |website| == 0 || |password| == 0
      ensures status == Declined <==> |website| > 0 && |password| > 0 && !confirmed
      ensures contents == Saved(old(contents), website, email, password, confirmed, digest)
    {
      var newData := map[website := NewRecord(email, password, digest)];
      if |website| == 0 || |password| == 0 {
        return EmptyField;
      }
      if !confirmed {
        return Declined;
      }
      match contents {
        case None =>
          contents := Some(newData);
        case Some(data) =>
          var updated := data + newData;
          contents := Some(updated);
      }
      status := Written;
    }
  }

  /** Saving, then searching for the same website, gives back the saved credentials. */
  lemma SaveThenFind(store: Store, website: string, email: string, password: string, digest: string -> string)
    requires |website| > 0 && |password| > 0
    ensures Lookup(Saved(store, website, email, password, true, digest), website)
         == Found(Record(email, password, digest(password)))
  {
  }

  /** A save leaves the search result for every other website as it was, except that it creates the document. */
  lemma SaveLeavesOthers(store: Store, website: string, email: string, password: string, confirmed: bool,
                         digest: string -> string, other: string)
    requires other != website
    ensures Lookup(Saved(store, website, email, password, confirmed, digest), other)
         == if store.None? && Accepts(website, password, confirmed) then NotFound(other) else Lookup(store, other)
  {
  }

  /** Saving the same credentials twice is the same as saving them once. */
  lemma SaveIdempotent(store: Store, website: string, email: string, password: string, confirmed: bool,
                       digest: string -> string)
    ensures var once := Saved(store, website, email, password, confirmed, digest);
            Saved(once, website, email, password, confirmed, digest) == once
  {
    var once := Saved(store, website, email, password, confirmed, digest);
    if Accepts(website, password, confirmed) {
      assert once.value + map[website := NewRecord(email, password, digest)] == once.value;
    }
  }

  /** An accepted save for a website discards whatever an earlier request for it left, with no merge. */
  lemma SaveOverwrites(store: Store, website: string, email1: string, password1: string, confirmed1: bool,
                       email2: string, password2: string, digest: string -> string)
    requires |website| > 0 && |password2| > 0
    ensures Saved(Saved(store, website, email1, password1, confirmed1, digest), website, email2, password2, true, digest)
         == Saved(store, website, email2, password2, true, digest)
  {
    var first := map[website := NewRecord(email1, password1, digest)];
    var second := map[website := NewRecord(email2, password2, digest)];
    var data := if store.Some? then store.value else map[];
    assert data + first + second == data + second;
    assert store.None? ==> first + second == second;
  }

  /** Every record holds the digest of its own password. */
  ghost predicate HashesMatch(store: Store, digest: string -> string) {
    store.Some? ==> forall w :: w in store.value ==> store.value[w].hash == digest(store.value[w].password)
  }

  /** Saves keep every stored hash equal to the digest of its password. */
  lemma SaveKeepsHashesMatching(store: Store, website: string, email: string, password: string, confirmed: bool,
                                digest: string -> string)
    requires HashesMatch(store, digest)
    ensures HashesMatch(Saved(store, website, email, password, confirmed, digest), digest)
  {
  }

  /** One save request as the form submits it. */
  datatype SaveRequest = SaveRequest(website: string, email: string, password: string, confirmed: bool)

  /** The document after the requests are handled in order. */
  function SaveAll(store: Store, requests: seq<SaveRequest>, digest: string -> string): (r: Store)
    ensures store.Some? ==> r.Some? && store.value.Keys <= r.value.Keys
    decreases |requests|
  {
    if requests == [] then store
    else
      var last := requests[|requests| - 1];
      Saved(SaveAll(store, requests[..|requests| - 1], digest), last.website, last.email, last.password, last.confirmed, digest)
  }

  /** The last accepted save for a website decides what a search for it finds. */
  lemma {:induction false} LastSaveWins(store: Store, requests: seq<SaveRequest>, digest: string -> string, i: nat)
    requires i < |requests|
    requires Accepts(requests[i].website, requests[i].password, requests[i].confirmed)
    requires forall j :: i < j < |requests| && requests[j].website == requests[i].website ==>
               !Accepts(requests[j].website, requests[j].password, requests[j].confirmed)
    ensures Lookup(SaveAll(store, requests, digest), requests[i].website)
         == Found(Record(requests[i].email, requests[i].password, digest(requests[i].password)))
    decreases |requests|
  {
    var n := |requests|;
    var last := requests[n - 1];
    var before := SaveAll(store, requests[..n - 1], digest);
    if i == n - 1 {
      SaveThenFind(before, last.website, last.email, last.password, digest);
    } else {
      LastSaveWins(store, requests[..n - 1], digest, i);
      if last.website != requests[i].website {
        SaveLeavesOthers(before, last.website, last.email, last.password, last.confirmed, digest, requests[i].website);
      }
    }
  }
}
