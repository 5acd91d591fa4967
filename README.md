# S3 image API — a verified model of its request handlers

The service keeps items (a `name`, a `price` and the storage key of an image)
in a key-value table whose partition key is `name`, and it keeps the images
in an object-storage bucket. This is a small REST service:

- `GET`, `POST`, `PUT` and `DELETE` on `/item/{name}` read, create, create or
  update, and remove one item.
- `GET /items` lists up to 100 items.
- When an item is created or updated, an image crawler downloads a picture
  for it and uploads the picture to the bucket.
- A `GET` of one item answers with a signed download link for its image
  instead of the storage key.

The model has these parts:

- `wrappers.dfy`: `Option`, the model's `None`.
- `values.dfy`: the values that pass between the table, the handlers and
  the JSON answers. There are decimals (what the table returns for numbers),
  floats (what the request parser produces), strings, integers, booleans,
  null, dicts and lists. Decimals and floats are abstract types.
- `helpers.dfy`: `decimal_to_float` and `remove_image_from_dicts`.
  - `ToFloat` is a specification function. It converts the entries of a
    container, at every depth. A top-level scalar, including a bare
    decimal, is returned unchanged, as the code does.
  - `DecimalToFloat` is the loop version, proved equal to `ToFloat`.
  - Lemmas describe the result leaf by leaf, along a path of keys and list
    indices (`At`). The conversion is also proved idempotent.
  - `RemoveImageFromDicts` works in place on an array. An element that is
    not a dict raises. So does a dict with neither `image` nor `name`,
    because the log line reads `name`. When an element raises, the elements
    before it are already stripped and the rest are untouched.
- `base64.dfy`: the base 64 encoding of section 4 of RFC 4648.
  - Lemmas prove the length, the alphabet and the padding.
  - A decoder is proved to invert the encoding, so the encoding is injective.
- `image_operations.dfy`: the file name the image downloader gives a
  candidate image (`Base64NameDownloader.get_filename`).
  - The URL path is taken as its UTF-8 bytes.
  - The name is the base 64 encoding of the path, a `.`, and the extension.
  - The extension is the text after the last `.` when its lower case is on
    the whitelist. Otherwise the crawler's default is used.
  - Lower-casing is ASCII lower-casing of bytes. For the whitelist test this
    equals Python's `str.lower`. The only non-ASCII character whose lower
    case is ASCII is the Kelvin sign, which becomes `k`, and no whitelisted
    extension contains `k`.
  - This file also holds the outcome types of the storage calls.
- `application.dfy`: `Item` and `ItemList` as one class, `ItemService`.
  - The table is a `map` from names to records. The bucket is a `set` of
    object keys.
  - Each handler takes the answers of the external services as parameters:
    - whether image acquisition uploaded a key, found nothing, or raised
      (possibly after uploading an orphan object). As written, acquisition
      never finds nothing (see below); that outcome is kept as a deliberate
      over-approximation;
    - whether an image deletion went through;
    - whether a table write went through;
    - whether the signed-link call returned a link, returned `None`, or
      raised.
  - An exception that escapes a handler is `Reply.Unhandled`. The web
    framework answers it with a 500.

Behaviour of the code as written that the model keeps:

- **Image acquisition raises instead of returning `None`.** The class
  expression of both `except` clauses of `pull_and_upload_image`
  (image_operations.py:39, image_operations.py:46) is the very name the
  clause binds, which is unbound when it is evaluated. So any crawl or
  listing failure raises, and so can a failed upload. The two `return None`
  statements (image_operations.py:41, image_operations.py:48) cannot be
  reached, and the only value the function returns is a file name
  (image_operations.py:66). The item is then not written, and the handler
  answers with a 500; `ImageOutcome.Raised` models this.
  `ImageOutcome.NoImage`, and with it the null `image` that insert and
  update would write, does not occur with the code as written. The model
  keeps it as an over-approximation, so its contracts also cover code that
  absorbs the failure.
- **A GET needs an image.** A `GET` of a record without an `image` attribute
  raises a `KeyError` (application.py:85). It does not answer with a null
  link.
- **A GET can raise on the link.** A signed-link call that fails with
  anything other than a storage-client error raises, and the GET with it.
- **An update needs a string image key.** `update` deletes the old image
  before it writes (application.py:70). If the record has no `image`, or its
  `image` is null, that step raises. A `PUT` on such an item therefore
  answers with a 500 and changes nothing.
- **Names are unique per path, not per URL.** A file name is a function of
  the URL's path alone. Two URLs that differ only in host or query get the
  same name. Distinct paths get distinct names (`FilenameInjective`).

## Model

| member | source | states |
|---|---|---|
| Helpers.DecimalToFloat | helpers.py:5-19 | the loop over a dict's keys or a list's slots computes exactly `ToFloat`: containers are descended into, decimal entries become their float, other entries and a top-level scalar stay |
| Helpers.DecimalLeavesConverted | helpers.py:5-19 | at every path the converted value has an entry exactly when the original has one; below the top each decimal becomes the float it converts to and no decimal is left; a decimal at the top stays; other scalars stay; dicts keep their keys and lists their lengths |
| Helpers.AtToFloat | helpers.py:5-19 | looking a path up in the converted value equals looking it up in the original and converting what is found (the conversion commutes with navigation) |
| Helpers.AtEntry | helpers.py:8-11 | the same commutation for one converted dict entry or list slot |
| Helpers.ToFloatIdempotent | helpers.py:5-19 | converting twice is converting once |
| Helpers.ConvertEntryIdempotent | helpers.py:8-11 | converting one entry twice is converting it once |
| Helpers.ToFloatKeepsKeys | helpers.py:6-11 | a converted dict is a dict with the same keys |
| Helpers.ToFloat | helpers.py:5-19 | the value `decimal_to_float` leaves behind: only the entries of a dict or list are converted; its properties are stated by `DecimalLeavesConverted`, `AtToFloat`, `ToFloatIdempotent` and `ToFloatKeepsKeys`, and `DecimalToFloat` is proved to compute it |
| Helpers.ConvertEntry | helpers.py:8-11 | one entry: a container is walked, a decimal becomes its float, anything else stays; stated by `AtEntry` and `ConvertEntryIdempotent` |
| Helpers.CanStrip | helpers.py:29-32 | whether an element gets past the loop body: a dict with `image`, or one with `name` for the log line; used by `FirstFailure` and `RemoveImageFromDicts` |
| Helpers.Stripped | helpers.py:30 | deleting `image` from a dict leaves every other key with its value and removes `image`; a non-dict is not changed |
| Helpers.FirstFailure | helpers.py:27-32 | the first index whose element is not a dict, or is a dict with neither `image` nor `name`; every element before it passes |
| Helpers.RemoveImageFromDicts | helpers.py:27-34 | succeeds exactly when every element passes; every element before the first failure loses `image`, and every element from it on is unchanged |
| Base64.Encode | image_operations.py:27 | the base 64 encoding of the path bytes; its properties are stated by `EncodeLength`, `EncodeAlphabet`, `EncodeHasNoDot`, `DecodeEncode` and `EncodeInjective` |
| Base64.EncodeLength | image_operations.py:27 | the encoding of n bytes has 4 * ceil(n / 3) characters |
| Base64.DecodeEncode | image_operations.py:27 | decoding the encoding gives back the bytes |
| Base64.DecodeEncodeGroup | image_operations.py:27 | the step of that induction: the first three bytes as one group, then the rest |
| Base64.EncodeInjective | image_operations.py:27 | distinct byte strings have distinct encodings |
| Base64.EncodeAlphabet | image_operations.py:27 | the encoding uses only the RFC 4648 alphabet, followed by the 0, 1 or 2 `=` the final quantum needs |
| Base64.EncodeHasNoDot | image_operations.py:27-28 | no character of an encoding is `.`, so the `.` before the extension is the first one in the name |
| ImageOperations.AfterLastDot | image_operations.py:19 | the last piece of `split('.')`: it holds no `.`, and a `.` comes just before it unless it is the whole path |
| ImageOperations.Extension | image_operations.py:18-25 | the default, or the last piece of a path that has a `.` and whose lower case is whitelisted; the exact policy is stated by `ExtensionPolicy` |
| ImageOperations.GetFilename | image_operations.py:16-28 | the encoding of the path, a `.`, and the extension; its structure and decoding are stated by `FilenameParts`, its injectivity by `FilenameInjective`, and a worked case by `UpperCaseExtensionKept` |
| ImageOperations.LastPieceStart | image_operations.py:18-19 | the start of the text after the last `.`: it holds no `.`, and the byte before it is a `.` unless it starts the path |
| ImageOperations.ExtensionPolicy | image_operations.py:18-25 | with no `.` the extension is the default; otherwise the text after the last `.` is kept in its own case when its lower case is whitelisted, and the default is used when it is not |
| ImageOperations.UpperCaseExtensionKept | image_operations.py:16-28 | the path `a.JPG` gets the name `YS5KUEc=.JPG` |
| ImageOperations.FilenameParts | image_operations.py:27-28 | up to its first `.` a name is the base 64 encoding of the path, 4 * ceil(n / 3) long, which decodes back to the path; after that `.` comes the extension |
| ImageOperations.FilenameInjective | image_operations.py:16-28 | distinct paths get distinct file names, whatever the default extensions |
| Application.ImageKeyConverted | application.py:70 | converting a record to floats does not change the image key that `update` deletes |
| Application.ItemService.Valid | application.py:16-28 | every record carries its partition key as its `name` attribute, as the table's key schema requires; every state-changing handler preserves it |
| Application.ItemService.NewRecord | application.py:59-66 | the record insert writes, `{name, price as decimal, image}`; `Insert` and `PostThenGet` state its use |
| Application.ItemService.FindByName | application.py:50-57 | the stored record with its decimals converted, or `None` when there is no record |
| Application.ItemService.Insert | application.py:59-66 | the uploaded object stays in the bucket, including one left behind by an acquisition that raised; the record `{name, price as decimal, image or null}` replaces any stored one unless acquisition raised or the write failed; success is reported exactly then; the table stays keyed by `name` |
| Application.ItemService.Update | application.py:68-79 | fails without change when there is no record or no string image key, or the deletion fails; otherwise the old image leaves the bucket and any upload enters it, and, unless acquisition raised or the write failed, `price` and `image` are set and every other attribute stays |
| Application.ItemService.Get | application.py:81-90 | not found gives `item not found`; a record without `image`, or a link call that raises, raises; otherwise the answer has the record's keys without `image`, plus `download_url` (the link or null) and `url_expires_in` = 60, and every other value is the record's value converted |
| Application.ItemService.Post | application.py:92-103 | an existing name gives the 400 duplicate message and changes nothing; a missing or non-numeric price gives the parser's 400 and changes nothing; otherwise the insert takes place and the answer is `{name, price}` or the 500 insert message, as the insert went |
| Application.ItemService.Delete | application.py:105-118 | the record is always removed; no record gives `item does not exist`; the image goes and `item deleted` is answered only when the record had a string image key and the deletion went through; otherwise the bucket stays and the answer says the image was not removed |
| Application.ItemService.Put | application.py:120-134 | a missing price gives the parser's 400 and changes nothing; an absent name is inserted and a present one updated, with the effects above; the answer is `{name, price}` or the 500 message of the failed step |
| Application.ItemService.Scan | application.py:141 | returns min(table size, 100) distinct names of the table, each with the record stored under it |
| Application.ItemService.ListItems | application.py:139-144 | an empty table gives `no items in the database found`; otherwise min(table size, 100) distinct table records, each without `image` and with its decimals converted |
| Application.PostThenGet | application.py:81-103 | after a POST whose insert goes through, a GET of that name answers with the name and with the price converted to a decimal and back; when the insert fails, the GET does not find the item |

## Left out

- `pull_and_upload_image`, `create_presigned_url` and `delete_image` call the
  crawler, the file system, the random number generator and the storage
  service. They are not modelled. Each handler receives their outcomes as
  parameters (`ImageOutcome`, `UrlOutcome`, `deleted`); only the bucket keys
  they add or remove are tracked.
- `convert_to_decimal` and the conversion of decimals to floats are abstract
  functions, because decimal and binary floating-point arithmetic is not
  modelled. In particular, the price read back is not claimed to equal the
  price submitted.
- `urlparse` and `str.encode` are not modelled. `get_filename` takes the URL
  path as its UTF-8 bytes.
- Flask routing, the JSON encoding of answers, the `reqparse` conversion to
  float, and the table's creation at start-up are not modelled. The parsed
  price is an `Option<Float>`.
- A failure of `get_item`, `scan` and `delete_item` is not modelled; they
  are taken to succeed. `put_item` and `update_item` may fail, through the
  `written` parameter.
- Logging and `print` are left out. They have no effect on the state or the
  answers.
- Concurrency between requests is left out. Each handler runs alone on the
  table and the bucket.
- Helpers.DecimalToFloat: works on values, so it does not capture that the
  Python function mutates the dicts and lists in place and returns the same
  object. It also does not cover shared or cyclic structures.
- Helpers.RemoveImageFromDicts: the array holds values, so aliasing between
  the list's dicts is not captured.
- Application.ItemService.Scan: does not decide which records a scan
  returns, or in what order. It also ignores the 1 MB page limit, which can
  stop a real scan page before 100 records.
- Application.ItemService.ListItems: inherits the same freedom of choice and
  order from `Scan`.
- Application.ItemService.Get: the link is an oracle answer. The contract
  does not tie it to the stored key or to the 60-second expiry.
