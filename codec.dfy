/** How the store service turns file trees into catalog entries and back:
    the defensive per-record decoding of `loadInventory` and
    `tryRestoreFromBackup`, the strict decoding of `createEmptyInventory`,
    the nodes `saveInventory` writes, the structural repair of
    `fixInventoryFileFormat`, and the built-in inventories. */
module Codec {
  import opened Wrappers
  import opened Text
  import opened Decimals
  import opened Dates
  import opened Json
  import opened Products

  /** What a store file holds as far as the service can tell: the tree
      `readTree` produces, or None when the text is not JSON (the parse
      throws), and whether `File.length()` is above 10. */
  datatype FileData = FileData(tree: Option<Json>, large: bool)

  /** A file written by `writeValue` from a non-empty array of nodes; its
      pretty-printed text is always longer than 10 characters. */
  function WrittenFile(nodes: seq<Json>): FileData {
    FileData(Some(JArr(nodes)), true)
  }

  const PerishableType: string := "perishable"
  const NonPerishableType: string := "non-perishable"
  const DefaultName: string := "Unnamed Product"
  const DefaultDateText: string := "2025-12-31"
  const LoadErrorName: string := "Error Product"
  const RestoreErrorName: string := "Backup Error Product"

  // ---------------------------------------------------------------------
  // Defensive decoding (loadInventory, tryRestoreFromBackup)
  // ---------------------------------------------------------------------

  /** The value of field `key` read with `asText(default)`, or `default` when absent. */
  function TextField(node: Json, key: string, default: string): string {
    if Has(node, key) then AsText(node.fields[key], default) else default
  }

  /** A money field read with `asDouble(0.0)` and stored at scale 2. */
  function MoneyField(node: Json, key: string): Cents {
    SetScale2(if Has(node, key) then AsDecimal(node.fields[key], Decimal(0, 1)) else Decimal(0, 1))
  }

  /** The quantity read with `asInt(0)`. */
  function QuantityField(node: Json): Int32 {
    if Has(node, "quantity") then AsInt(node.fields["quantity"], 0) else 0
  }

  /** The entry a thrown exception is replaced by. */
  function ErrorRecord(errorName: string): Record {
    Record(errorName, 0, 0, 0, NonPerishable)
  }

  /** The entry a node decodes to when it is not a perishable record. */
  function PlainRecord(node: Json): Record {
    Record(TextField(node, "name", DefaultName), MoneyField(node, "price"), QuantityField(node),
           MoneyField(node, "discount"), NonPerishable)
  }

  /** True when the node asks to be a `PerishableProduct`. */
  predicate WantsPerishable(node: Json) {
    TextField(node, "type", NonPerishableType) == PerishableType && Has(node, "expirationDate")
  }

  /** One array element decoded as `loadInventory` does (with `errorName`
      "Error Product") and `tryRestoreFromBackup` does (with "Backup Error
      Product"): missing fields take their defaults, and a perishable
      record whose date does not parse becomes the error entry. */
  function DecodeRecord(node: Json, errorName: string): (r: Record)
    ensures r.kind.Perishable? <==>
      WantsPerishable(node) && ParseIsoDate(TextField(node, "expirationDate", DefaultDateText)).Some?
    ensures r.kind.Perishable? ==>
      r.kind.expiration == ParseIsoDate(TextField(node, "expirationDate", DefaultDateText)).value
    ensures !WantsPerishable(node) ==> r == PlainRecord(node)
    ensures WantsPerishable(node) && r.kind.NonPerishable? ==> r == ErrorRecord(errorName)
  {
    if WantsPerishable(node) then
      match ParseIsoDate(TextField(node, "expirationDate", DefaultDateText))
      case None => ErrorRecord(errorName)
      case Some(d) => PlainRecord(node).(kind := Perishable(d))
    else PlainRecord(node)
  }

  function DecodeAll(nodes: seq<Json>, errorName: string): (r: seq<Record>)
    ensures |r| == |nodes|
    ensures forall i :: 0 <= i < |nodes| ==> r[i] == DecodeRecord(nodes[i], errorName)
  {
    if |nodes| == 0 then [] else [DecodeRecord(nodes[0], errorName)] + DecodeAll(nodes[1..], errorName)
  }

  /** A node that is not an object, or an object without any of the fields,
      decodes to "Unnamed Product" with price, quantity and discount 0. */
  lemma DecodeDefaults(node: Json, errorName: string)
    requires forall k :: k in {"type", "name", "price", "quantity", "discount", "expirationDate"} ==> !Has(node, k)
    ensures DecodeRecord(node, errorName) == Record(DefaultName, 0, 0, 0, NonPerishable)
  {
    assert !Has(node, "type") && !Has(node, "name") && !Has(node, "price");
    assert !Has(node, "quantity") && !Has(node, "discount");
    assert SetScale2(Decimal(0, 1)) == 0;
  }

  /** A record typed "perishable" without an `expirationDate` is a plain product. */
  lemma DecodePerishableWithoutDate(node: Json, errorName: string)
    requires node.JObj? && node.fields.Keys == {"type", "name"}
    requires node.fields["type"] == JStr(PerishableType)
    ensures DecodeRecord(node, errorName).kind.NonPerishable?
    ensures DecodeRecord(node, errorName).name == AsText(node.fields["name"], DefaultName)
  {
  }

  /** A perishable record whose date text does not parse is replaced by the
      error entry named for the caller. */
  lemma DecodeBadDate(name: string, dateText: string, errorName: string)
    requires ParseIsoDate(dateText).None?
    ensures DecodeRecord(JObj(map["type" := JStr(PerishableType), "name" := JStr(name),
                                  "expirationDate" := JStr(dateText)]), errorName) == ErrorRecord(errorName)
  {
  }

  // ---------------------------------------------------------------------
  // Strict decoding (createEmptyInventory)
  // ---------------------------------------------------------------------

  /** One element decoded as `createEmptyInventory` does, with `get(...)`
      and default-less `asText()`/`asDouble()`/`asInt()`: a missing field
      (a `NullPointerException`) or a date that does not parse is None. */
  function DecodeStrict(node: Json): (r: Option<Record>)
    ensures r.Some? ==> Has(node, "name") && Has(node, "price") && Has(node, "quantity") && Has(node, "discount")
  {
    var perishable := Has(node, "type") && AsText(node.fields["type"], "null") == PerishableType;
    if !(Has(node, "name") && Has(node, "price") && Has(node, "quantity") && Has(node, "discount")) then None
    else
      var base := Record(AsText(node.fields["name"], "null"), SetScale2(AsDecimal(node.fields["price"], Decimal(0, 1))),
                         AsInt(node.fields["quantity"], 0), SetScale2(AsDecimal(node.fields["discount"], Decimal(0, 1))),
                         NonPerishable);
      if !perishable then Some(base)
      else if !Has(node, "expirationDate") then None
      else
        match ParseIsoDate(AsText(node.fields["expirationDate"], "null"))
        case None => None
        case Some(d) => Some(base.(kind := Perishable(d)))
  }

  /** The strict loop over all elements: every element decoded, in order,
      or None as soon as one element fails. */
  function DecodeStrictAll(nodes: seq<Json>): (r: Option<seq<Record>>)
    ensures r.Some? <==> forall i :: 0 <= i < |nodes| ==> DecodeStrict(nodes[i]).Some?
    ensures r.Some? ==> |r.value| == |nodes|
    ensures r.Some? ==> forall i :: 0 <= i < |nodes| ==> DecodeStrict(nodes[i]) == Some(r.value[i])
  {
    if |nodes| == 0 then Some([])
    else
      match DecodeStrict(nodes[0])
      case None => None
      case Some(first) =>
        match DecodeStrictAll(nodes[1..])
        case None => None
        case Some(rest) => Some([first] + rest)
  }

  // ---------------------------------------------------------------------
  // Encoding (saveInventory)
  // ---------------------------------------------------------------------

  /** The node `saveInventory` writes for one entry: the discriminator
      "perishable" plus `expirationDate` in `toString` form, or
      "non-perishable"; then name, price, quantity and discount. */
  function EncodeRecord(r: Record): (node: Json)
    ensures node.JObj? && Has(node, "type")
    ensures r.kind.Perishable? ==> node.fields.Keys == {"type", "expirationDate", "name", "price", "quantity", "discount"}
    ensures r.kind.NonPerishable? ==> node.fields.Keys == {"type", "name", "price", "quantity", "discount"}
    ensures node.fields["type"] == JStr(if r.kind.Perishable? then PerishableType else NonPerishableType)
  {
    var common := map["name" := JStr(r.name), "price" := JNum(Decimal(r.price, 2)),
                      "quantity" := JNum(Decimal(r.quantity, 0)), "discount" := JNum(Decimal(r.discount, 2))];
    match r.kind
    case Perishable(e) =>
      JObj(common["type" := JStr(PerishableType)]["expirationDate" := JStr(FormatIsoDate(e))])
    case NonPerishable => JObj(common["type" := JStr(NonPerishableType)])
  }

  function EncodeAll(inv: seq<Record>): (r: seq<Json>)
    ensures |r| == |inv|
    ensures forall i :: 0 <= i < |inv| ==> r[i] == EncodeRecord(inv[i])
  {
    if |inv| == 0 then [] else [EncodeRecord(inv[0])] + EncodeAll(inv[1..])
  }

  /** The fields of a written node, read back as the defensive decoder does. */
  lemma EncodedFields(r: Record)
    ensures var node := EncodeRecord(r);
      TextField(node, "name", DefaultName) == r.name && QuantityField(node) == r.quantity
      && MoneyField(node, "price") == r.price && MoneyField(node, "discount") == r.discount
      && (Has(node, "expirationDate") <==> r.kind.Perishable?)
      && TextField(node, "type", NonPerishableType) == (if r.kind.Perishable? then PerishableType else NonPerishableType)
      && (r.kind.Perishable? ==> TextField(node, "expirationDate", DefaultDateText) == FormatIsoDate(r.kind.expiration))
  {
    SetScale2Idempotent(r.price);
    SetScale2Idempotent(r.discount);
  }

  /** Decoding what `saveInventory` writes gives back the entry. */
  lemma DecodeEncode(r: Record, errorName: string)
    ensures DecodeRecord(EncodeRecord(r), errorName) == r
  {
    EncodedFields(r);
    if r.kind.Perishable? {
      ParseFormat(r.kind.expiration);
    } else {
      assert |NonPerishableType| != |PerishableType|;
    }
  }

  lemma {:induction false} DecodeEncodeAll(inv: seq<Record>, errorName: string)
    ensures DecodeAll(EncodeAll(inv), errorName) == inv
  {
    var back := DecodeAll(EncodeAll(inv), errorName);
    forall i | 0 <= i < |inv| ensures back[i] == inv[i] {
      DecodeEncode(inv[i], errorName);
    }
  }

  // ---------------------------------------------------------------------
  // Structural repair (fixInventoryFileFormat)
  // ---------------------------------------------------------------------

  /** Some element has no `type` field (a non-object has none). */
  predicate NeedsType(items: seq<Json>) {
    exists i :: 0 <= i < |items| && !Has(items[i], "type")
  }

  /** A fresh object with "type": "non-perishable", then every field of the
      element copied over it, so an existing `type` wins. */
  function FixItem(item: Json): (r: Json)
    ensures r.JObj? && Has(r, "type")
    ensures r.fields.Keys == {"type"} + (if item.JObj? then item.fields.Keys else {})
    ensures forall k :: Has(item, k) ==> r.fields[k] == item.fields[k]
    ensures !Has(item, "type") ==> r.fields["type"] == JStr(NonPerishableType)
  {
    JObj(map["type" := JStr(NonPerishableType)] + (if item.JObj? then item.fields else map[]))
  }

  function FixItems(items: seq<Json>): (r: seq<Json>)
    ensures |r| == |items|
    ensures forall i :: 0 <= i < |items| ==> r[i] == FixItem(items[i])
  {
    if |items| == 0 then [] else [FixItem(items[0])] + FixItems(items[1..])
  }

  /** An element that already has a `type` is left exactly as it was. */
  lemma FixItemKeepsTyped(item: Json)
    requires Has(item, "type")
    ensures FixItem(item) == item
  {
    assert FixItem(item).fields == item.fields;
  }

  /** After repair every element has a `type`, and repairing again changes nothing. */
  lemma {:induction false} FixItemsComplete(items: seq<Json>)
    ensures !NeedsType(FixItems(items))
    ensures FixItems(FixItems(items)) == FixItems(items)
  {
    var fixed := FixItems(items);
    forall i | 0 <= i < |items| ensures FixItem(fixed[i]) == fixed[i] {
      FixItemKeepsTyped(fixed[i]);
    }
  }

  /** When no element lacks a `type` the repair is the identity. */
  lemma {:induction false} FixItemsNoop(items: seq<Json>)
    requires !NeedsType(items)
    ensures FixItems(items) == items
  {
    forall i | 0 <= i < |items| ensures FixItems(items)[i] == items[i] {
      FixItemKeepsTyped(items[i]);
    }
  }

  /** The repair never changes what an element decodes to. */
  lemma DecodeFixItem(item: Json, errorName: string)
    ensures DecodeRecord(FixItem(item), errorName) == DecodeRecord(item, errorName)
  {
    var f := FixItem(item);
    if !Has(item, "type") {
      assert TextField(f, "type", NonPerishableType) == NonPerishableType;
      assert TextField(item, "type", NonPerishableType) == NonPerishableType;
    }
    assert TextField(f, "type", NonPerishableType) == TextField(item, "type", NonPerishableType);
    forall k | k != "type" ensures Has(f, k) == Has(item, k) {}
    assert TextField(f, "name", DefaultName) == TextField(item, "name", DefaultName);
    assert PlainRecord(f) == PlainRecord(item);
  }

  lemma {:induction false} DecodeFixItems(items: seq<Json>, errorName: string)
    ensures DecodeAll(FixItems(items), errorName) == DecodeAll(items, errorName)
  {
    forall i | 0 <= i < |items| ensures DecodeAll(FixItems(items), errorName)[i] == DecodeAll(items, errorName)[i] {
      DecodeFixItem(items[i], errorName);
    }
  }

  /** Everything `saveInventory` writes already carries its discriminator. */
  lemma EncodedNeedsNoType(inv: seq<Record>)
    ensures !NeedsType(EncodeAll(inv))
  {
  }

  // ---------------------------------------------------------------------
  // Built-in inventories
  // ---------------------------------------------------------------------

  function PerishableItem(name: string, price: Decimal, quantity: Int32, discount: Decimal, expiration: LocalDate): Json {
    JObj(map["type" := JStr(PerishableType), "name" := JStr(name), "price" := JNum(price),
             "quantity" := JNum(Decimal(quantity, 0)), "discount" := JNum(discount),
             "expirationDate" := JStr(FormatIsoDate(expiration))])
  }

  function PlainItem(name: string, price: Decimal, quantity: Int32, discount: Decimal): Json {
    JObj(map["type" := JStr(NonPerishableType), "name" := JStr(name), "price" := JNum(price),
             "quantity" := JNum(Decimal(quantity, 0)), "discount" := JNum(discount)])
  }

  /** One product of `createDefaultInventoryWithTenProducts`' text, with its
      numbers as written there (0.0 has scale 1, 0.1 scale 1, 0.05 scale 2);
      a product with an expiration date is perishable. */
  datatype Template = Template(name: string, price: Decimal, quantity: Int32, discount: Decimal, expiration: Option<LocalDate>)

  /** The array element a template product is written as. */
  function TemplateItem(t: Template): Json {
    match t.expiration
    case Some(e) => PerishableItem(t.name, t.price, t.quantity, t.discount, e)
    case None => PlainItem(t.name, t.price, t.quantity, t.discount)
  }

  /** The entry a template product stands for: its amounts at scale 2. */
  function TemplateRecord(t: Template): Record {
    Record(t.name, SetScale2(t.price), t.quantity, SetScale2(t.discount),
           match t.expiration case Some(e) => Perishable(e) case None => NonPerishable)
  }

  const TenProductTemplates: seq<Template> := [
    Template("Apples", Decimal(199, 2), 50, Decimal(5, 2), Some(Date(2025, 4, 25))),
    Template("Bananas", Decimal(89, 2), 40, Decimal(0, 1), Some(Date(2025, 4, 20))),
    Template("Strawberries", Decimal(349, 2), 20, Decimal(1, 1), Some(Date(2025, 4, 19))),
    Template("Broccoli", Decimal(249, 2), 18, Decimal(5, 2), Some(Date(2025, 4, 21))),
    Template("Grapes", Decimal(499, 2), 15, Decimal(5, 2), Some(Date(2025, 4, 18))),
    Template("Cucumbers", Decimal(99, 2), 25, Decimal(0, 1), Some(Date(2025, 4, 23))),
    Template("Tomatoes", Decimal(229, 2), 30, Decimal(0, 1), Some(Date(2025, 4, 24))),
    Template("Lettuce", Decimal(179, 2), 12, Decimal(1, 1), Some(Date(2025, 4, 19))),
    Template("Potatoes", Decimal(79, 2), 60, Decimal(0, 1), None),
    Template("Onions", Decimal(89, 2), 45, Decimal(5, 2), None)
  ]

  /** The arrays of elements and of entries a list of template products
      stands for. */
  function TemplateItems(ts: seq<Template>): (r: seq<Json>)
    ensures |r| == |ts| && forall i :: 0 <= i < |ts| ==> r[i] == TemplateItem(ts[i])
  {
    seq(|ts|, i requires 0 <= i < |ts| => TemplateItem(ts[i]))
  }

  function TemplateRecords(ts: seq<Template>): (r: seq<Record>)
    ensures |r| == |ts| && forall i :: 0 <= i < |ts| ==> r[i] == TemplateRecord(ts[i])
  {
    seq(|ts|, i requires 0 <= i < |ts| => TemplateRecord(ts[i]))
  }

  /** The tree of the text `createDefaultInventoryWithTenProducts` writes. */
  const TenProductItems: seq<Json> := TemplateItems(TenProductTemplates)

  const TenProductFile: FileData := FileData(Some(JArr(TenProductItems)), true)

  /** The entries the ten-product file stands for. */
  const TenProductRecords: seq<Record> := TemplateRecords(TenProductTemplates)

  /** `createMinimalInventory`'s two plain products. */
  const MinimalFile: FileData := FileData(Some(JArr([
    PlainItem("Potatoes", Decimal(79, 2), 60, Decimal(0, 1)),
    PlainItem("Onions", Decimal(89, 2), 45, Decimal(5, 2))
  ])), true)

  /** The in-memory fallback of `createEmptyInventory`. */
  const SampleRecords: seq<Record> := [Record("Sample Product", 999, 10, 0, NonPerishable)]

  /** The entries `createDefaultInventory` builds. */
  const DefaultRecords: seq<Record> := [
    Record("Apples", 199, 50, 5, Perishable(Date(2025, 4, 25))),
    Record("Bananas", 89, 40, 0, Perishable(Date(2025, 4, 20))),
    Record("Strawberries", 349, 20, 10, Perishable(Date(2025, 4, 19))),
    Record("Tomatoes", 229, 30, 0, Perishable(Date(2025, 4, 24))),
    Record("Lettuce", 179, 15, 5, Perishable(Date(2025, 4, 18))),
    Record("Cucumbers", 99, 25, 0, Perishable(Date(2025, 4, 23))),
    Record("Broccoli", 249, 18, 5, Perishable(Date(2025, 4, 21))),
    Record("Potatoes", 79, 60, 0, NonPerishable),
    Record("Onions", 89, 45, 5, NonPerishable),
    Record("Rice", 399, 30, 0, NonPerishable)
  ]

  /** The fields of a template element, looked up by name. */
  lemma PerishableItemFields(name: string, price: Decimal, quantity: Int32, discount: Decimal, e: LocalDate)
    ensures var item := PerishableItem(name, price, quantity, discount, e);
      item.JObj? && item.fields.Keys == {"type", "name", "price", "quantity", "discount", "expirationDate"}
      && item.fields["type"] == JStr(PerishableType) && item.fields["name"] == JStr(name)
      && item.fields["price"] == JNum(price) && item.fields["quantity"] == JNum(Decimal(quantity, 0))
      && item.fields["discount"] == JNum(discount) && item.fields["expirationDate"] == JStr(FormatIsoDate(e))
  {
  }

  lemma PerishableItemStrict(name: string, price: Decimal, quantity: Int32, discount: Decimal, e: LocalDate)
    ensures DecodeStrict(PerishableItem(name, price, quantity, discount, e))
         == Some(Record(name, SetScale2(price), quantity, SetScale2(discount), Perishable(e)))
  {
    var item := PerishableItem(name, price, quantity, discount, e);
    PerishableItemFields(name, price, quantity, discount, e);
    assert Has(item, "type") && Has(item, "name") && Has(item, "price");
    assert Has(item, "quantity") && Has(item, "discount") && Has(item, "expirationDate");
    StrictOfPerishableFields(item, name, price, quantity, discount, e);
  }

  /** An object with a perishable `type` and all five fields, read strictly. */
  lemma StrictOfPerishableFields(node: Json, name: string, price: Decimal, quantity: Int32, discount: Decimal, e: LocalDate)
    requires Has(node, "type") && Has(node, "name") && Has(node, "price") && Has(node, "quantity")
    requires Has(node, "discount") && Has(node, "expirationDate")
    requires node.fields["type"] == JStr(PerishableType) && node.fields["name"] == JStr(name)
    requires node.fields["price"] == JNum(price) && node.fields["quantity"] == JNum(Decimal(quantity, 0))
    requires node.fields["discount"] == JNum(discount) && node.fields["expirationDate"] == JStr(FormatIsoDate(e))
    ensures DecodeStrict(node) == Some(Record(name, SetScale2(price), quantity, SetScale2(discount), Perishable(e)))
  {
    ParseFormat(e);
  }

  lemma PerishableItemDefensive(name: string, price: Decimal, quantity: Int32, discount: Decimal, e: LocalDate, errorName: string)
    ensures DecodeRecord(PerishableItem(name, price, quantity, discount, e), errorName)
         == Record(name, SetScale2(price), quantity, SetScale2(discount), Perishable(e))
  {
    PerishableItemFields(name, price, quantity, discount, e);
    ParseFormat(e);
  }

  /** A template element reads back, under both decoders, as the entry it
      describes, and carries its `type`. */
  lemma DecodePerishableItem(name: string, price: Decimal, quantity: Int32, discount: Decimal, e: LocalDate, errorName: string)
    ensures var item := PerishableItem(name, price, quantity, discount, e);
      var r := Record(name, SetScale2(price), quantity, SetScale2(discount), Perishable(e));
      Has(item, "type") && DecodeStrict(item) == Some(r) && DecodeRecord(item, errorName) == r
  {
    PerishableItemFields(name, price, quantity, discount, e);
    PerishableItemStrict(name, price, quantity, discount, e);
    PerishableItemDefensive(name, price, quantity, discount, e, errorName);
  }

  lemma DecodePlainItem(name: string, price: Decimal, quantity: Int32, discount: Decimal, errorName: string)
    ensures var item := PlainItem(name, price, quantity, discount);
      var r := Record(name, SetScale2(price), quantity, SetScale2(discount), NonPerishable);
      Has(item, "type") && DecodeStrict(item) == Some(r) && DecodeRecord(item, errorName) == r
  {
  }

  /** A template product reads back, under both decoders, as the entry it
      stands for, and carries its `type`. */
  lemma DecodeTemplate(t: Template, errorName: string)
    ensures Has(TemplateItem(t), "type")
    ensures DecodeStrict(TemplateItem(t)) == Some(TemplateRecord(t))
    ensures DecodeRecord(TemplateItem(t), errorName) == TemplateRecord(t)
  {
    match t.expiration
    case Some(e) => DecodePerishableItem(t.name, t.price, t.quantity, t.discount, e, errorName);
    case None => DecodePlainItem(t.name, t.price, t.quantity, t.discount, errorName);
  }

  /** Any list of template products is read back, by the strict decoder
      and by the defensive one, as the entries it stands for. */
  lemma TemplatesDecodeStrictly(ts: seq<Template>)
    ensures DecodeStrictAll(TemplateItems(ts)) == Some(TemplateRecords(ts))
  {
    var items, recs := TemplateItems(ts), TemplateRecords(ts);
    forall i | 0 <= i < |items| ensures DecodeStrict(items[i]) == Some(recs[i]) {
      DecodeTemplate(ts[i], "");
    }
    StrictAllOfEach(items, recs);
  }

  lemma TemplatesDecode(ts: seq<Template>, errorName: string)
    ensures DecodeAll(TemplateItems(ts), errorName) == TemplateRecords(ts)
  {
    var items, recs := TemplateItems(ts), TemplateRecords(ts);
    forall i | 0 <= i < |items| ensures DecodeRecord(items[i], errorName) == recs[i] {
      DecodeTemplate(ts[i], errorName);
    }
  }

  lemma TemplatesTyped(ts: seq<Template>)
    ensures !NeedsType(TemplateItems(ts))
  {
    var items := TemplateItems(ts);
    forall i | 0 <= i < |items| ensures Has(items[i], "type") {
      DecodeTemplate(ts[i], "");
    }
  }

  /** `createEmptyInventory` reads the ten-product file back without an
      exception and obtains exactly the ten entries it describes; the
      defensive decoder obtains the same entries, and no element lacks `type`. */
  lemma TenProductFileDecodes(errorName: string)
    ensures |TenProductItems| == |TenProductRecords| == 10
    ensures DecodeStrictAll(TenProductItems) == Some(TenProductRecords)
    ensures DecodeAll(TenProductItems, errorName) == TenProductRecords
    ensures !NeedsType(TenProductItems)
  {
    TemplatesDecodeStrictly(TenProductTemplates);
    TemplatesDecode(TenProductTemplates, errorName);
    TemplatesTyped(TenProductTemplates);
  }

  /** Two of the entries, with their amounts brought to scale 2. */
  lemma TenProductRecordsScaled()
    ensures TenProductRecords[2] == Record("Strawberries", 349, 20, 10, Perishable(Date(2025, 4, 19)))
    ensures TenProductRecords[9] == Record("Onions", 89, 45, 5, NonPerishable)
  {
    SetScale2Idempotent(349);
    SetScale2Idempotent(89);
    SetScale2Idempotent(5);
  }

  lemma {:induction false} StrictAllOfEach(nodes: seq<Json>, recs: seq<Record>)
    requires |nodes| == |recs|
    requires forall i :: 0 <= i < |nodes| ==> DecodeStrict(nodes[i]) == Some(recs[i])
    ensures DecodeStrictAll(nodes) == Some(recs)
  {
    if |nodes| > 0 {
      StrictAllOfEach(nodes[1..], recs[1..]);
      assert [recs[0]] + recs[1..] == recs;
    }
  }
}
