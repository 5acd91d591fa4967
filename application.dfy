/**
 * The item handlers: the single-item resource (GET, POST, PUT, DELETE on
 * /item/{name}) with its data-access helpers, and the collection resource
 * (GET /items). The key-value table is a map from item names to records
 * and the storage bucket a set of object keys; the answers of the image
 * crawler, the signed-link service, the image deletion and the table
 * writes are parameters of the handler that consumes them.
 */
module Application {
  import opened Wrappers
  import opened Values
  import opened Helpers
  import opened ImageOperations

  /**
   * A handler's answer: a JSON body with its HTTP status, or an exception
   * that escaped the handler (which the web framework turns into a 500).
   */
  datatype Reply = Reply(body: Value, status: nat) | Unhandled

  /** A `{message: text}` body. */
  function Message(text: string, status: nat): Reply {
    Reply(Dict(map["message" := Str(text)]), status)
  }

  /** The request parser's answer to a body without a usable `price`. */
  const PriceRequired: Reply := Reply(Dict(map["message" := Dict(map["price" := Str("Cannot be left blank")])]), 400)

  const NotFound: string := "item not found"
  const InsertFailed: string := "an error occurred inserting the item."
  const UpdateFailed: string := "an error occurred updating the item."
  const ItemDeleted: string := "item deleted"
  const ImageNotRemoved: string := "item deleted but there was an issue removing image from S3"
  const NoSuchItem: string := "item does not exist"
  const NoItems: string := "no items in the database found"

  function Duplicate(name: string): string {
    "an item with name " + name + " already exists"
  }

  /** Lifetime in seconds of the download link a GET hands out. */
  const UrlExpiry: int := 60

  /** The most records the collection GET scans. */
  const ScanLimit: nat := 100

  /** The `{name, price}` object that POST and PUT answer with. */
  function Submitted(name: string, price: Float): Value {
    Dict(map["name" := Str(name), "price" := Flt(price)])
  }

  /** The key a record's `image` attribute names, when delete_image can accept it (a string). */
  function ImageKeyOf(r: Record): Option<string> {
    if ImageAttr in r && r[ImageAttr].Str? then Some(r[ImageAttr].s) else None
  }

  /** What is written as `image`: the uploaded key, or null when no image was found. */
  function ImageValue(acquired: ImageOutcome): Value {
    if acquired.Uploaded? then Str(acquired.key) else Null
  }

  /** The `download_url` of a GET: the link, or null. */
  function UrlValue(url: UrlOutcome): Value
    requires !url.UrlRaised?
  {
    if url.Url? then Str(url.url) else Null
  }

  /** Whether insert writes its record: the image step did not raise and the write went through. */
  predicate InsertWrites(acquired: ImageOutcome, written: bool) {
    !acquired.Raised? && written
  }

  /**
   * Whether update writes: the record had a string image key, deleting
   * that image went through, the image step did not raise and the write
   * went through.
   */
  predicate UpdateWrites(oldKey: Option<string>, deleted: bool, acquired: ImageOutcome, written: bool) {
    oldKey.Some? && deleted && !acquired.Raised? && written
  }

  /** Converting a record to floats leaves the key its `image` attribute names as it is. */
  lemma ImageKeyConverted(r: Record, cvt: Decimal -> Float)
    ensures ToFloat(Dict(r), cvt).Dict?
    ensures ImageKeyOf(ToFloat(Dict(r), cvt).entries) == ImageKeyOf(r)
  {
    if ImageAttr in r {
      var c := r[ImageAttr];
      assert ToFloat(Dict(r), cvt).entries[ImageAttr] == ConvertEntry(c, cvt);
      assert ConvertEntry(c, cvt).Str? <==> c.Str?;
    }
  }

  class ItemService {
    /** The item table, keyed by the partition key `name`. */
    var table: map<string, Record>
    /** The keys of the objects in the image bucket. */
    var bucket: set<string>
    /** The float-to-decimal conversion done before every write of `price`. */
    const toDecimal: Float -> Decimal
    /** The decimal-to-float conversion done on every record read back. */
    const toFloat: Decimal -> Float

    /** Every record carries its own partition key as `name`. */
    ghost predicate Valid()
      reads this
    {
      forall k :: k in table ==> "name" in table[k] && table[k]["name"] == Str(k)
    }

    constructor (items: map<string, Record>, objects: set<string>,
                 toDecimal: Float -> Decimal, toFloat: Decimal -> Float)
      requires forall k :: k in items ==> "name" in items[k] && items[k]["name"] == Str(k)
      ensures Valid()
      ensures table == items && bucket == objects
      ensures this.toDecimal == toDecimal && this.toFloat == toFloat
    {
      table, bucket := items, objects;
      this.toDecimal, this.toFloat := toDecimal, toFloat;
    }

    /** The image key stored for `name`, if there is a record with a string one. */
    ghost function StoredImage(name: string): Option<string>
      reads this
    {
      if name in table then ImageKeyOf(table[name]) else None
    }

    /** The record insert writes. */
    function NewRecord(name: string, price: Float, acquired: ImageOutcome): Record {
      map["name" := Str(name), "price" := Dec(toDecimal(price)), ImageAttr := ImageValue(acquired)]
    }

    /** The effect of insert: objects the image step uploaded stay; the record is written if the write went through. */
    twostate predicate Inserted(name: string, price: Float, acquired: ImageOutcome, written: bool)
      reads this
    {
      && bucket == old(bucket) + Uploads(acquired)
      && table == if InsertWrites(acquired, written) then old(table)[name := NewRecord(name, price, acquired)]
                  else old(table)
    }

    /**
     * The effect of update: once the old image is deleted, objects the
     * image step uploaded stay; if the write goes through, `price` and
     * `image` are set and every other attribute stays.
     */
    twostate predicate Updated(name: string, price: Float, deleted: bool, acquired: ImageOutcome, written: bool)
      reads this
    {
      var oldKey := old(StoredImage(name));
      && bucket == (if oldKey.Some? && deleted then old(bucket) - {oldKey.value} + Uploads(acquired)
                    else old(bucket))
      && table == if UpdateWrites(oldKey, deleted, acquired, written)
                  then old(table)[name := old(table)[name]["price" := Dec(toDecimal(price))][ImageAttr := ImageValue(acquired)]]
                  else old(table)
    }

    /** find_by_name: the stored record with its decimals turned into floats, or None. */
    method FindByName(name: string) returns (item: Option<Value>)
      ensures item == if name in table then Some(ToFloat(Dict(table[name]), toFloat)) else None
    {
      if name in table {
        var converted := DecimalToFloat(Dict(table[name]), toFloat);
        item := Some(converted);
      } else {
        item := None;
      }
    }

    /**
     * insert: acquire an image for the item, then write `{name, price,
     * image}` without looking at what is stored. `ok` is false when an
     * exception escaped.
     */
    method Insert(name: string, price: Float, acquired: ImageOutcome, written: bool) returns (ok: bool)
      requires Valid()
      modifies this
      ensures Valid()
      ensures ok == InsertWrites(acquired, written)
      ensures Inserted(name, price, acquired, written)
    {
      var decimal := toDecimal(price);
      bucket := bucket + Uploads(acquired);
      if acquired.Raised? || !written {
        ok := false;
        return;
      }
      table := table[name := map["name" := Str(name), "price" := Dec(decimal), ImageAttr := ImageValue(acquired)]];
      ok := true;
    }

    /**
     * update: look the item up, delete its current image, acquire a new
     * one, then set `price` and `image` on the record. `ok` is false when
     * an exception escaped: no record, no string image key, a failed
     * deletion, a raising image step or a failed write.
     */
    method Update(name: string, price: Float, deleted: bool, acquired: ImageOutcome, written: bool)
      returns (ok: bool)
      requires Valid()
      modifies this
      ensures Valid()
      ensures ok == UpdateWrites(old(StoredImage(name)), deleted, acquired, written)
      ensures Updated(name, price, deleted, acquired, written)
    {
      var found := FindByName(name);
      if found.None? {
        ok := false;
        return;
      }
      ImageKeyConverted(table[name], toFloat);
      var current := found.value.entries;
      if ImageAttr !in current || !current[ImageAttr].Str? || !deleted {
        ok := false;
        return;
      }
      bucket := bucket - {current[ImageAttr].s};
      var decimal := toDecimal(price);
      bucket := bucket + Uploads(acquired);
      if acquired.Raised? || !written {
        ok := false;
        return;
      }
      table := table[name := table[name]["price" := Dec(decimal)][ImageAttr := ImageValue(acquired)]];
      ok := true;
    }

    /**
     * GET /item/{name}: the record with decimals as floats, without
     * `image`, with a `download_url` for the image and `url_expires_in`
     * of 60. A record without `image`, or a link request that raises,
     * lets the exception escape.
     */
    method Get(name: string, url: UrlOutcome) returns (reply: Reply)
      requires Valid()
      ensures name !in table ==> reply == Message(NotFound, 200)
      ensures name in table && (ImageAttr !in table[name] || url.UrlRaised?) ==> reply == Unhandled
      ensures name in table && ImageAttr in table[name] && !url.UrlRaised? ==>
                && reply.Reply? && reply.status == 200 && reply.body.Dict?
                && reply.body.entries.Keys == table[name].Keys - {ImageAttr} + {"download_url", "url_expires_in"}
                && reply.body.entries["download_url"] == UrlValue(url)
                && reply.body.entries["url_expires_in"] == Int(UrlExpiry)
                && forall k :: k in table[name] && k != ImageAttr && k != "download_url" && k != "url_expires_in" ==>
                     reply.body.entries[k] == ConvertEntry(table[name][k], toFloat)
    {
      var found := FindByName(name);
      if found.None? {
        reply := Message(NotFound, 200);
        return;
      }
      var item := found.value.entries;
      if ImageAttr !in item || url.UrlRaised? {
        reply := Unhandled;
        return;
      }
      item := item["download_url" := UrlValue(url)];
      item := item["url_expires_in" := Int(UrlExpiry)];
      item := item - {ImageAttr};
      reply := Reply(Dict(item), 200);
    }

    /**
     * POST /item/{name}: an existing name is refused before the body is
     * parsed; otherwise the item is inserted and `{name, price}` returned.
     */
    method Post(name: string, price: Option<Float>, acquired: ImageOutcome, written: bool) returns (reply: Reply)
      requires Valid()
      modifies this
      ensures Valid()
      ensures name in old(table) ==>
                reply == Message(Duplicate(name), 400) && table == old(table) && bucket == old(bucket)
      ensures name !in old(table) && price.None? ==>
                reply == PriceRequired && table == old(table) && bucket == old(bucket)
      ensures name !in old(table) && price.Some? ==>
                && Inserted(name, price.value, acquired, written)
                && reply == if InsertWrites(acquired, written) then Reply(Submitted(name, price.value), 200)
                            else Message(InsertFailed, 500)
    {
      var found := FindByName(name);
      if found.Some? {
        reply := Message(Duplicate(name), 400);
        return;
      }
      if price.None? {
        reply := PriceRequired;
        return;
      }
      var ok := Insert(name, price.value, acquired, written);
      if !ok {
        reply := Message(InsertFailed, 500);
        return;
      }
      reply := Reply(Submitted(name, price.value), 200);
    }

    /**
     * DELETE /item/{name}: the record goes whenever it exists; then its
     * image is deleted, and the message says whether that went through.
     */
    method Delete(name: string, deleted: bool) returns (reply: Reply)
      requires Valid()
      modifies this
      ensures Valid()
      ensures table == old(table) - {name}
      ensures name !in old(table) ==> reply == Message(NoSuchItem, 200) && bucket == old(bucket)
      ensures name in old(table) && ImageKeyOf(old(table)[name]).Some? && deleted ==>
                reply == Message(ItemDeleted, 200) && bucket == old(bucket) - {ImageKeyOf(old(table)[name]).value}
      ensures name in old(table) && !(ImageKeyOf(old(table)[name]).Some? && deleted) ==>
                reply == Message(ImageNotRemoved, 200) && bucket == old(bucket)
    {
      if name !in table {
        reply := Message(NoSuchItem, 200);
        return;
      }
      var attributes := table[name];
      table := table - {name};
      if ImageAttr !in attributes || !attributes[ImageAttr].Str? || !deleted {
        reply := Message(ImageNotRemoved, 200);
        return;
      }
      bucket := bucket - {attributes[ImageAttr].s};
      reply := Message(ItemDeleted, 200);
    }

    /**
     * PUT /item/{name}: the body is parsed first; an absent name is
     * inserted and a present one updated; `{name, price}` is returned.
     */
    method Put(name: string, price: Option<Float>, deleted: bool, acquired: ImageOutcome, written: bool)
      returns (reply: Reply)
      requires Valid()
      modifies this
      ensures Valid()
      ensures price.None? ==> reply == PriceRequired && table == old(table) && bucket == old(bucket)
      ensures price.Some? && name !in old(table) ==>
                && Inserted(name, price.value, acquired, written)
                && reply == if InsertWrites(acquired, written) then Reply(Submitted(name, price.value), 200)
                            else Message(InsertFailed, 500)
      ensures price.Some? && name in old(table) ==>
                && Updated(name, price.value, deleted, acquired, written)
                && reply == if UpdateWrites(old(StoredImage(name)), deleted, acquired, written)
                            then Reply(Submitted(name, price.value), 200)
                            else Message(UpdateFailed, 500)
    {
      if price.None? {
        reply := PriceRequired;
        return;
      }
      var found := FindByName(name);
      if found.None? {
        var ok := Insert(name, price.value, acquired, written);
        if !ok {
          reply := Message(InsertFailed, 500);
          return;
        }
      } else {
        var ok := Update(name, price.value, deleted, acquired, written);
        if !ok {
          reply := Message(UpdateFailed, 500);
          return;
        }
      }
      reply := Reply(Submitted(name, price.value), 200);
    }

    /**
     * The table scan with its limit of 100: distinct records, as many as
     * the table holds up to the limit, in an order the table picks, with
     * the names they are stored under.
     */
    method Scan() returns (records: seq<Value>, listed: seq<string>)
      ensures |listed| == |records| == (if |table| < ScanLimit then |table| else ScanLimit)
      ensures forall i, j :: 0 <= i < j < |listed| ==> listed[i] != listed[j]
      ensures forall i :: 0 <= i < |listed| ==> listed[i] in table && records[i] == Dict(table[listed[i]])
    {
      var pending := table.Keys;
      records, listed := [], [];
      while pending != {} && |records| < ScanLimit
        invariant pending <= table.Keys
        invariant |records| == |listed| <= ScanLimit && |pending| + |listed| == |table|
        invariant forall i :: 0 <= i < |listed| ==>
                    listed[i] in table && listed[i] !in pending && records[i] == Dict(table[listed[i]])
        invariant forall i, j :: 0 <= i < j < |listed| ==> listed[i] != listed[j]
        decreases pending
      {
        var k :| k in pending;
        records := records + [Dict(table[k])];
        listed := listed + [k];
        pending := pending - {k};
      }
    }

    /**
     * GET /items: no records found gives a message; otherwise every
     * scanned record is returned without `image` and with its decimals as
     * floats.
     */
    method ListItems() returns (reply: Reply, ghost listed: seq<string>)
      requires Valid()
      ensures table == map[] ==> reply == Message(NoItems, 200)
      ensures table != map[] ==>
                && |listed| == (if |table| < ScanLimit then |table| else ScanLimit)
                && (forall i, j :: 0 <= i < j < |listed| ==> listed[i] != listed[j])
                && (forall i :: 0 <= i < |listed| ==> listed[i] in table)
                && reply.Reply? && reply.status == 200 && reply.body.List?
                && |reply.body.items| == |listed|
                && forall i :: 0 <= i < |listed| ==>
                     && reply.body.items[i] == ToFloat(Dict(table[listed[i]] - {ImageAttr}), toFloat)
                     && reply.body.items[i].Dict? && ImageAttr !in reply.body.items[i].entries
    {
      var scanned;
      scanned, listed := Scan();
      if |scanned| == 0 {
        reply := Message(NoItems, 200);
        return;
      }
      var items := new Value[|scanned|](i requires 0 <= i < |scanned| => scanned[i]);
      assert items[..] == scanned;
      var ok := RemoveImageFromDicts(items);
      assert forall i :: 0 <= i < |scanned| ==> CanStrip(scanned[i]);
      assert ok;
      ghost var stripped := items[..];
      assert forall i :: 0 <= i < |stripped| ==> stripped[i] == Dict(table[listed[i]] - {ImageAttr});
      var body := DecimalToFloat(List(items[..]), toFloat);
      forall i | 0 <= i < |listed|
        ensures body.items[i] == ToFloat(Dict(table[listed[i]] - {ImageAttr}), toFloat)
        ensures body.items[i].Dict? && ImageAttr !in body.items[i].entries
      {
        assert body.items[i] == ConvertEntry(stripped[i], toFloat);
        ToFloatKeepsKeys(table[listed[i]] - {ImageAttr}, toFloat);
      }
      reply := Reply(body, 200);
    }
  }

  /**
   * A client of the handlers: a POST that goes through on a new name,
   * then a GET of that name, answers with the name and the price as it
   * comes back from the table (the submitted float, converted to a
   * decimal and back).
   */
  method PostThenGet(service: ItemService, name: string, price: Float, acquired: ImageOutcome,
                     written: bool, url: UrlOutcome)
    returns (posted: Reply, got: Reply)
    requires service.Valid() && name !in service.table && !url.UrlRaised?
    modifies service
    ensures posted == if InsertWrites(acquired, written) then Reply(Submitted(name, price), 200)
                      else Message(InsertFailed, 500)
    ensures InsertWrites(acquired, written) ==>
              && got.Reply? && got.status == 200 && got.body.Dict?
              && "name" in got.body.entries && "price" in got.body.entries
              && got.body.entries["name"] == Str(name)
              && got.body.entries["price"] == Flt(service.toFloat(service.toDecimal(price)))
    ensures !InsertWrites(acquired, written) ==> got == Message(NotFound, 200)
  {
    posted := service.Post(name, Some(price), acquired, written);
    if InsertWrites(acquired, written) {
      assert service.table[name] == service.NewRecord(name, price, acquired);
    }
    got := service.Get(name, url);
  }
}
