# Password manager: generator and credential store

This project models the logic of a small desktop password manager. The logic
has three parts:

- **Generate** builds a random password. It picks 8 to 10 ASCII letters, 2 to
  4 symbols from `! # $ % & ( ) * +` and 2 to 4 decimal digits, puts the three
  groups together and shuffles them.
- **Save** stores the website's email, password and the SHA-256 hex digest of
  the password in a JSON document that maps website names to records. Saving
  is refused when the website or the password is empty. It does nothing when
  the user declines the confirmation. Otherwise it creates the document, or
  inserts or overwrites the website's entry.
- **Search** looks a website up in that document. It reports either that
  there is no document, that the website has no entry, or the stored record.

Two modules hold the model:

- `generator.dfy`, module `PasswordGenerator`, is pure functions and lemmas.
  Every random outcome is an input. Each group is a sequence of indices into
  its alphabet, and the length of that sequence is what `randint` drew. The
  shuffle is a permutation of positions.
- `credential_store.dfy`, module `CredentialStore`, models the document as
  `Option<map<string, Record>>`, where `None` means the file does not exist.
  The class `PasswordFile` holds the document and updates it in place through
  its `Save` method. `Save` is specified by the function `Saved`. A search is
  the pure function `Lookup`. The SHA-256 digest is a function-valued
  parameter `digest`, and nothing is assumed about it.

## Model

| member | source | states |
|---|---|---|
| `PasswordGenerator.CharRange` | password_manager.py:13-14 | The ASCII letter and digit alphabets hold exactly the characters in their code-point ranges (`a`–`z`, `A`–`Z`, `0`–`9`), each once. |
| `PasswordGenerator.AlphabetsDisjoint` | password_manager.py:13-15 | No character is in two of the three alphabets: letters, symbols and digits. |
| `PasswordGenerator.Pick` | password_manager.py:18-20 | Repeating `choice` once per draw gives one character per draw, and every one of them comes from the chosen alphabet. |
| `PasswordGenerator.Permute` | password_manager.py:23 | Shuffling by a permutation of positions keeps the length of the list; with `PermutePreservesMultiset` it also keeps every character and its number of occurrences. |
| `PasswordGenerator.PermutePreservesMultiset` | password_manager.py:22-23 | Shuffling the combined list by any permutation keeps every character and its number of occurrences. |
| `PasswordGenerator.CountRespectsMultiset` | password_manager.py:23 | The number of characters from a given alphabet does not change when the characters are reordered, so the shuffle keeps each class count. |
| `PasswordGenerator.Generate` | password_manager.py:12-25 | The password has 12 to 18 characters. Each character is a letter, one of the nine symbols or a digit. The password holds the same characters, with the same multiplicities, as letters ++ symbols ++ digits. The number of letters, symbols and digits is exactly the size drawn for each group. |
| `CredentialStore.Saved` | password_manager.py:34-63 | An empty website or an empty password, or a declined confirmation, leaves the document unchanged, including an absent one. The email is never checked. An accepted save always leaves a document whose keys are the old keys plus the website. When there was no document, that website is the only key. The website's record is (email, password, digest(password)), and every other record is unchanged. |
| `CredentialStore.PasswordFile.Save` | password_manager.py:32-67 | Reports EmptyField exactly when the website or the password is empty. Reports Declined exactly when both are given but the save is not confirmed. The new document is `Saved` of the old one. |
| `CredentialStore.Lookup` | password_manager.py:71-86 | A search reports NoStore exactly when there is no document. It reports NotFound, carrying the queried name, exactly when the document lacks that key. Otherwise it returns the stored record as it is. |
| `CredentialStore.SaveThenFind` | password_manager.py:37-41 | An accepted save of (W, E, P) followed by a search for W finds (E, P, digest(P)), whether or not the document existed before. |
| `CredentialStore.SaveLeavesOthers` | password_manager.py:55-60 | After a save, a search for any other website gives the same answer as before. The one exception: if the save created the document, a search that used to report NoStore now reports NotFound. |
| `CredentialStore.SaveIdempotent` | password_manager.py:58-63 | Saving the same request twice leaves the same document as saving it once. |
| `CredentialStore.SaveOverwrites` | password_manager.py:58-63 | An accepted save for a website replaces whatever an earlier request for it left, accepted or not, in full. Nothing of the earlier record is merged in. |
| `CredentialStore.SaveKeepsHashesMatching` | password_manager.py:34-41 | If every stored hash is the digest of its own password, this still holds after any save. |
| `CredentialStore.SaveAll` | password_manager.py:51-63 | Once the document exists, handling a series of save requests keeps it existing and loses no website. |
| `CredentialStore.LastSaveWins` | password_manager.py:51-63 | After a series of save requests, a search for a website finds the record of the last accepted save for that website. |

`CredentialStore.Accepts` (the guards at password_manager.py:44 and 51) and
`CredentialStore.NewRecord` (the record built at password_manager.py:34-41)
are helpers of `Saved`; what they mean is stated by `Saved`'s contract.

## Left out

- The tkinter form: building the widgets, reading and clearing the entry
  fields, and the message boxes. Website, email, password and the answer to
  the confirmation are parameters instead.
- The generated password is inserted at the front of the password field with
  `Entry.insert(0, …)`. The field is not cleared first. This is widget
  plumbing and is not modelled.
- Copying the password to the clipboard with `pyperclip`, a foreign call.
- Reading and writing `passwords.json` and the JSON encoding. The document is
  its decoded value. I/O errors other than a missing file, and malformed JSON,
  are not modelled. In the source they propagate as uncaught exceptions.
- SHA-256 itself. `digest` is an arbitrary function. The model proves only
  that the stored hash is `digest(password)`.
- The random source and its distribution. `randint`, `choice` and `shuffle`
  become explicit inputs that the preconditions confine to the values they
  can return. The Fisher–Yates steps inside `random.shuffle` are not
  modelled, only the permutation they produce. Uniformity is not modelled.
- The order of keys in the file. `dict.update` keeps an existing key in its
  place and appends a new one, and `json.dump` writes keys in that order. A
  `map` has no order. No search depends on it, since a search only tests
  whether the key is present.
