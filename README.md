# Photo upload and face matching, modelled in Dafny

This project models the two serverless handlers of `Functions/savePhoto.js`.

- **`indexFaces`** receives an uploaded photo. It derives a storage key from the filename and a uuid. It then writes the image to an S3 bucket, writes a photo record to a DynamoDB table, and indexes the faces of the image in a Rekognition collection under that key.
- **`recognizeFaces`** receives a probe photo. It asks the collection for matching faces and looks up each matched key in the table. It answers with the records it finds, in match order.

The model is split into these modules:

- `Naming` (`naming.dfy`): pure functions for the filename sanitisation, the extension, the storage key and the public URL. Lemmas state their properties: the alphabet, idempotence, the "after the last dot" rule, key uniqueness per uuid, and the URL round trip.
- `Records` (`records.dfy`): the parsed upload, the photo record and the failure kinds.
- `Matching` (`matching.dfy`): `Resolve`, the pure specification of the lookup loop (an order-preserving filter-map), with lemmas about it.
- `SavePhoto` (`save_photo.dfy`): a class `Backend` that holds the three external stores as state:
  - `blobs`: bucket objects by key;
  - `meta`: table items by `ExternalImageId`;
  - `registered`: the keys with at least one face in the collection;
  - a ghost log `calls` of every write issued.

  Each store call is a method that takes its outcome (succeeds or fails) as a parameter. `IndexFaces` issues the writes in the source's order. `RecognizeFaces` runs the source's loop and is proved equal to `Resolve`. `Backend.Valid()` is the invariant the write order keeps: a face is registered only under a key that has a record, and a record exists only for a key that has an object. `IndexFaces` preserves it under every combination of outcomes.
- `Wrappers` (`wrappers.dfy`): `Option` and `Result`.

## Where the code falls short of the intended design (the model follows the code)

- **Empty image.** The intended design rejects an upload that has no image bytes, before any store is touched. The code only checks that the file list is non-empty (Functions/savePhoto.js:22, 83), so an empty file goes on to the stores.
- **Missing filename.** The intended design lets the upload go on when the filename is missing or odd. In the code, `file.filename.replace` throws at line 27, and the catch at line 70 turns this into the generic error. The model gives this case its own failure, `MissingFilename`, raised before any store is touched.
- **Unsafe keys.** The intended design wants every key to be safe in file names and URLs. The code takes the extension from the raw filename (line 28), so any character can reach the key. `Naming.KeyAllowedIff` and `Naming.UnsafeKeyExample` state this: `photo.j pg` gives a key that contains a space.
- **Record/registration consistency.** The intended design wants a record to exist exactly when its face registration exists, or when no face was found. The code does not keep this: a failed face registration leaves a record with no registration. What the code does keep is `registered <= meta.Keys <= blobs.Keys`, which is `Backend.Valid()`.
- **Failed lookups in a probe.** The intended design treats a failure to resolve one match as harmless: that match is left out. In the code, a rejected `dynamodb.get` (line 107) reaches the catch at lines 118-124. The whole probe then answers the error, and the records already found are discarded. `Backend.RecognizeFaces` models this with the `LookupFailed` failure.
- **Search limits.** The intended design takes the maximum number of results and the similarity threshold as inputs. The code fixes them at 5 and 70 (lines 93-94).

## Model

| member | source | states |
|---|---|---|
| `Naming.Clean` | Functions/savePhoto.js:27 | a character after replacement is in `[A-Za-z0-9_.-]`; it is unchanged exactly when it was already allowed; it is a dot exactly when it was a dot |
| `Naming.Sanitize` | Functions/savePhoto.js:27 | the sanitised filename has the same length as the original |
| `Naming.SanitizeAt` | Functions/savePhoto.js:27 | each position of the sanitised filename holds the original character if it is allowed, and `_` otherwise |
| `Naming.SanitizeKeepsDots` | Functions/savePhoto.js:27 | the sanitised filename holds a dot exactly when the original does |
| `Naming.SanitizeAllowed` | Functions/savePhoto.js:27 | every character of the sanitised filename is allowed, and sanitisation leaves a filename unchanged exactly when all its characters are already allowed |
| `Naming.SanitizeIdempotent` | Functions/savePhoto.js:27 | sanitising twice gives the same result as sanitising once |
| `Naming.SanitizeAppend` | Functions/savePhoto.js:27 | sanitisation works character by character: sanitising a concatenation concatenates the sanitised parts |
| `Naming.LastDotEnd` | Functions/savePhoto.js:28 | the extension starts either at position 0 or just after a dot, and no dot follows that position |
| `Naming.LastDotEndAfter` | Functions/savePhoto.js:28 | after a final dot (or from the start), a tail with no dot leaves the extension's start just after that dot |
| `Naming.Extension` | Functions/savePhoto.js:28 | `split('.').pop()` is a suffix of the filename that holds no dot, and it is either the whole filename or directly preceded by a dot (so a trailing dot gives the empty extension) |
| `Naming.ExtensionUnique` | Functions/savePhoto.js:28 | whatever follows a last dot, or the start, and holds no dot is the extension, so the three properties above determine it |
| `Naming.ExtensionWithoutDot` | Functions/savePhoto.js:28 | a filename with no dot is its own extension |
| `Naming.ExtensionOfSanitized` | Functions/savePhoto.js:27-28 | taking the extension of the sanitised name gives the sanitised raw extension |
| `Naming.StorageKey` | Functions/savePhoto.js:29 | the key is as long as the filename plus the uuid plus the extension plus the dash and the dot |
| `Naming.KeyLayout` | Functions/savePhoto.js:27-29 | the key starts with the sanitised filename followed by `-`, and its extension is the extension of the raw filename |
| `Naming.KeyInjectiveInUuid` | Functions/savePhoto.js:29 | for one filename, two keys are equal exactly when the uuids are equal |
| `Naming.KeysDistinctAcrossFilenames` | Functions/savePhoto.js:29 | if the uuids have the same length (a v4 uuid always has 36 characters), keys made with different uuids differ, whatever the filenames |
| `Naming.SanitizeCollides` | Functions/savePhoto.js:27-29 | `a b.jpg` and `a_b.jpg` sanitise to the same name and give the same key for the same uuid, so uniqueness comes from the uuid alone |
| `Naming.KeyAllowedIff` | Functions/savePhoto.js:27-29 | with a v4 uuid, every character of the key is allowed exactly when every character of the raw extension is |
| `Naming.UnsafeKeyExample` | Functions/savePhoto.js:28-29 | the filename `photo.j pg` gives a key that holds a character outside the allowed set |
| `Naming.ImageUrl` | Functions/savePhoto.js:37 | the URL's length is the bucket's plus the key's plus the fixed scheme and host text |
| `Naming.KeyOfUrl` | Functions/savePhoto.js:37 | a key read back from a URL is as long as the URL minus the bucket name and the 26 characters of fixed text; `UrlRoundTrip` and `UrlOnlyFromImageUrl` make it the inverse of `ImageUrl` |
| `Naming.UrlRoundTrip` | Functions/savePhoto.js:37 | reading the key back from the image URL gives the key |
| `Naming.UrlInjective` | Functions/savePhoto.js:37 | different keys give different URLs in the same bucket |
| `Naming.UrlOnlyFromImageUrl` | Functions/savePhoto.js:37 | every URL from which a key can be read is the image URL of that key |
| `Records.NewRecord` | Functions/savePhoto.js:37-48 | the stored item has `ExternalImageId` equal to the key, an `imageUrl` that resolves back to the key, a one-element comment list holding the upload's comment, the upload's topic and poster, and the given timestamp |
| `Matching.Resolve` | Functions/savePhoto.js:98-111 | the answer to a probe is never longer than the list of matches |
| `Matching.HitIndices` | Functions/savePhoto.js:98-111 | every hit position is a position of the match list |
| `Matching.ResolveIsHitSubsequence` | Functions/savePhoto.js:98-111 | the answer is exactly the records at the matched positions that the table holds: the positions rise (match order is kept), each one holds a hit and the answer holds its record, and every hit is among them |
| `Matching.ResolveAppend` | Functions/savePhoto.js:100-111 | resolving a concatenation of match lists concatenates their answers |
| `Matching.ResolveAllHits` | Functions/savePhoto.js:100-111 | when every matched key has a record, nothing is dropped, and position `i` of the answer is the record of match `i` |
| `Matching.ResolveNoHits` | Functions/savePhoto.js:100-111 | when no matched key has a record, the answer is empty |
| `Matching.ResolveReadsOnlyMatches` | Functions/savePhoto.js:101-110 | two tables that agree on the matched keys give the same answer |
| `Matching.ResolveUnaffectedByOtherKey` | Functions/savePhoto.js:101-110 | storing a record under a key that no match names leaves the answer unchanged |
| `SavePhoto.IssuedCalls` | Functions/savePhoto.js:31-77 | the writes issued are a non-empty prefix of object put, record put, face indexing; the prefix stops right after the first failed write |
| `SavePhoto.Backend.constructor` | Functions/savePhoto.js:5-11 | the clients are bound to the configured bucket; the model starts from a fresh deployment, with empty stores and an empty write log, which satisfies the store invariant |
| `SavePhoto.Backend.PutObject` | Functions/savePhoto.js:31-35 | on success the bucket maps the key to the body; on failure it is unchanged; the table and the collection are untouched; one object write is logged; the store invariant is kept |
| `SavePhoto.Backend.PutItem` | Functions/savePhoto.js:50 | on success the table maps the item's `ExternalImageId` to the item; on failure it is unchanged; the other stores are untouched; one record write is logged; issued, as the handler does, only for an item whose object is already in the bucket, it keeps the store invariant |
| `SavePhoto.Backend.RegisterFaces` | Functions/savePhoto.js:52-63 | on success the key becomes searchable if at least one face was indexed (zero faces is still a success); on failure nothing changes; one face-indexing call is logged; issued, as the handler does, only for a key whose record is already in the table, it keeps the store invariant |
| `SavePhoto.Backend.GetItem` | Functions/savePhoto.js:102-108 | a read that fails gives `LookupFailed`; a read that goes through finds an item exactly when the key is in the table, and the item it finds is the one stored there |
| `SavePhoto.Backend.IndexFaces` | Functions/savePhoto.js:18-78 | with no file, or a file without a filename, the handler fails with nothing written; otherwise it writes the object, the record and the face registration under the derived key in that order; the first failure stops the writes and yields its error, and earlier writes are kept; success answers with the derived URL; the store invariant is preserved |
| `SavePhoto.Backend.WriteUpload` | Functions/savePhoto.js:31-77 | each store's new state is stated for every combination of step outcomes: a failed object write leaves the table and the collection unchanged; a failed record write leaves the collection unchanged but keeps the object; the log records exactly the writes issued, in order |
| `SavePhoto.Backend.RecognizeFaces` | Functions/savePhoto.js:80-126 | with no file it fails before any lookup; a failed search is an error; if any lookup fails the whole probe answers `LookupFailed`; otherwise the loop answers `Resolve` of the table and the match list, i.e. the matched records the table holds, in match order, with misses dropped; with the store invariant and every match a registered key, nothing is dropped; it writes nothing (no `modifies`) |
| `SavePhoto.RegisteredMatchesAllResolve` | Functions/savePhoto.js:63-111 | when every registered key has a record (the order of writes ensures this) and every match is a registered key, the answer has one record per match, position by position |
| `SavePhoto.ProbeSkipsMissing` | Functions/savePhoto.js:107-110 | when the best match has a record and the second has none, the answer is the first record alone |

The method `SavePhoto.UploadThenProbe` is a client of `Backend` with no contract of its own. It uploads `A.jpg` with topic `wedding`, comment `nice` and poster `Alice`; its assertions state the reply URL and the stored record. It then probes with the new key and a key the table does not hold; its assertions state that the answer is the new record alone.

## Left out

- The AWS SDK calls (S3 `putObject`, DynamoDB `put`/`get`, Rekognition `indexFaces`/`searchFacesByImage`) are not part of this model. They are replaced by updates and lookups on the three store fields. Each call, including each table read of a probe, takes an outcome parameter in place of the network.
- Face detection, similarity scores and ranking belong to the recognition service. The model takes the search result as a given list of keys in ranked order. The fixed `MaxFaces: 5` and `FaceMatchThreshold: 70` (lines 93-94) are not modelled, and there are no floating-point scores.
- The face records that `indexFaces` returns (bounding boxes, confidences) are reduced to their number. The probe image's bytes are reduced to whether the search succeeds.
- Multipart parsing (`lambda-multipart-parser`, lines 20 and 82) is not part of this model. An upload is given already parsed. Files after the first are ignored, as in the source. Absent form fields (undefined in JavaScript) are not modelled: the comment, topic and poster name are always strings.
- The HTTP response framing is not modelled: status codes, CORS headers and JSON bodies (lines 13-16, 65-76, 113-124). A handler answers with a `Result`. The source maps every failure to the same 500 response with a fixed message, so the failure kinds in the model exist only to state contracts.
- The uuid (`uuidv4()`, line 29) and the timestamp (`new Date().toISOString()`, line 46) are parameters. Global uniqueness of generated uuids is assumed, not proved.
- Environment configuration (lines 9-11) is not modelled. The bucket name is a constructor parameter. This leaves out the text `undefined` that an unset `BUCKET_NAME` would put in URLs. The collection id and its default `my-collection-id` are not modelled either: `registered` stands for the one configured collection.
- Strings are sequences of Dafny characters (Unicode scalar values). The source's regular expression has no `u` flag, so it replaces each UTF-16 code unit. A character outside the Basic Multilingual Plane therefore becomes two underscores in the source and one in the model.
- Concurrency is not modelled. Each invocation is independent, and the model runs one invocation at a time.
- The reads made by `recognizeFaces` are not logged in `calls`. Only the writes of `indexFaces` are.
- `Functions/getPhotos.js` (a table scan passed to a formatter) is not part of this model, and neither is `utils/formatPhotoResponse`.
