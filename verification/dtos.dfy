/** Transfer objects of the later service variant: the read projection
    `ItemDto`, the two request shapes, and the validation their annotations
    ask of the framework before a handler runs. */
module Dtos {
  import opened Wrappers
  import opened Entities

  /** The read projection returned to clients: every field of an item. */
  datatype ItemDto = ItemDto(
    id: Guid,
    name: string,
    description: Option<string>,
    price: real,
    createdDate: Timestamp,
    updatedDate: Timestamp
  )

  /** Body of a POST: no identifier and no timestamps. */
  datatype CreateItemDto = CreateItemDto(name: Option<string>, description: Option<string>, price: real)

  /** Body of a PUT: the same three fields as a create request. */
  datatype UpdateItemDto = UpdateItemDto(name: Option<string>, description: Option<string>, price: real)

  /** Projection of an entity onto its transfer shape: every field of the
      projection equals the same field of the entity. */
  function AsDto(item: Item): (d: ItemDto)
    ensures d.id == item.id && d.name == item.name && d.description == item.description
    ensures d.price == item.price && d.createdDate == item.createdDate && d.updatedDate == item.updatedDate
  {
    ItemDto(item.id, item.name, item.description, item.price, item.createdDate, item.updatedDate)
  }

  /** The entity a projection was taken from. */
  function AsItem(dto: ItemDto): Item {
    Item(dto.id, dto.name, dto.description, dto.price, dto.createdDate, dto.updatedDate)
  }

  /** The projection loses nothing: the entity is recovered from it, and the
      projection is recovered from that entity. */
  lemma AsDtoRoundTrip(item: Item, dto: ItemDto)
    ensures AsItem(AsDto(item)) == item
    ensures AsDto(AsItem(dto)) == dto
    ensures AsDto(item) == dto <==> item == AsItem(dto)
  {
  }

  // ---------------------------------------------------------------------------
  // [Required] on a string
  // ---------------------------------------------------------------------------

  /** The characters .NET treats as white space: the controls U+0009..U+000D,
      U+0085, and the Unicode space, line and paragraph separators. */
  predicate IsWhiteSpace(c: char) {
    var n := c as int;
    || (0x09 <= n <= 0x0D) || n == 0x20 || n == 0x85 || n == 0xA0 || n == 0x1680
    || (0x2000 <= n <= 0x200A) || n == 0x2028 || n == 0x2029 || n == 0x202F
    || n == 0x205F || n == 0x3000
  }

  /** A string made of white space only (the empty string included). */
  predicate Blank(s: string) {
    forall i :: 0 <= i < |s| ==> IsWhiteSpace(s[i])
  }

  /** `s` with its leading white space removed. */
  function TrimStart(s: string): (r: string)
    ensures |r| <= |s| && r == s[|s| - |r|..]
    ensures |r| > 0 ==> !IsWhiteSpace(r[0])
    ensures forall i :: 0 <= i < |s| - |r| ==> IsWhiteSpace(s[i])
  {
    if |s| > 0 && IsWhiteSpace(s[0]) then TrimStart(s[1..]) else s
  }

  /** `s` with its trailing white space removed. */
  function TrimEnd(s: string): (r: string)
    ensures |r| <= |s| && r == s[..|r|]
    ensures |r| > 0 ==> !IsWhiteSpace(r[|r| - 1])
    ensures forall i :: |r| <= i < |s| ==> IsWhiteSpace(s[i])
  {
    if |s| > 0 && IsWhiteSpace(s[|s| - 1]) then TrimEnd(s[..|s| - 1]) else s
  }

  /** `s` with white space removed at both ends. */
  function Trim(s: string): string {
    TrimEnd(TrimStart(s))
  }

  /** Trimming leaves nothing exactly when the string is blank. */
  lemma TrimEmptyIffBlank(s: string)
    ensures |Trim(s)| == 0 <==> Blank(s)
  {
    var t := TrimStart(s);
    if |t| > 0 {
      assert t[0] == s[|s| - |t|];
    }
  }

  /** What `[Required]` accepts on a string property: a non-null value that
      does not trim to the empty string. */
  function Required(value: Option<string>): (ok: bool)
    ensures ok <==> value.Some? && exists i :: 0 <= i < |value.value| && !IsWhiteSpace(value.value[i])
  {
    match value
    case None => false
    case Some(s) => TrimEmptyIffBlank(s); |Trim(s)| != 0
  }

  // ---------------------------------------------------------------------------
  // [Range(1, 1000)] on a decimal
  // ---------------------------------------------------------------------------

  /** `Convert.ToInt32` on a decimal: the nearest integer, a tie going to the
      even neighbour. */
  function RoundHalfEven(p: real): (n: int)
    ensures p - 0.5 <= n as real <= p + 0.5
    ensures (n as real - p == 0.5 || p - n as real == 0.5) ==> n % 2 == 0
  {
    var f := p.Floor;
    var frac := p - f as real;
    if frac < 0.5 then f
    else if frac > 0.5 then f + 1
    else if f % 2 == 0 then f else f + 1
  }

  /** A few roundings: ties go to the even neighbour, everything else to the
      nearest integer. */
  lemma RoundHalfEvenExamples()
    ensures RoundHalfEven(0.5) == 0 && RoundHalfEven(1.5) == 2 && RoundHalfEven(2.5) == 2
    ensures RoundHalfEven(0.75) == 1 && RoundHalfEven(1000.5) == 1000 && RoundHalfEven(1000.75) == 1001
  {
  }

  /** The bounds of `[Range(1, 1000)]`: integer operands, both inclusive. */
  const MinPrice: int := 1
  const MaxPrice: int := 1000

  /** What `[Range(1, 1000)]` accepts on a decimal price. The integer bounds
      make the framework convert the price with `Convert.ToInt32` first and
      compare the rounded value, so the accepted window is (0.5, 1000.5]. */
  function InPriceRange(price: real): (ok: bool)
    ensures ok <==> 0.5 < price <= 1000.5
  {
    MinPrice <= RoundHalfEven(price) <= MaxPrice
  }

  /** The request validation of a POST body: a name that is present and not
      blank, and a price that rounds into the range. The description is not checked. */
  function ValidCreate(dto: CreateItemDto): (ok: bool)
    ensures ok <==>
      && dto.name.Some?
      && (exists i :: 0 <= i < |dto.name.value| && !IsWhiteSpace(dto.name.value[i]))
      && 0.5 < dto.price <= 1000.5
  {
    Required(dto.name) && InPriceRange(dto.price)
  }

  /** The request validation of a PUT body: the same annotations as a POST body. */
  function ValidUpdate(dto: UpdateItemDto): (ok: bool)
    ensures ok <==>
      && dto.name.Some?
      && (exists i :: 0 <= i < |dto.name.value| && !IsWhiteSpace(dto.name.value[i]))
      && 0.5 < dto.price <= 1000.5
  {
    Required(dto.name) && InPriceRange(dto.price)
  }

  /** Both request shapes carry exactly the same constraints. */
  lemma SameConstraints(name: Option<string>, description: Option<string>, price: real)
    ensures ValidUpdate(UpdateItemDto(name, description, price)) <==> ValidCreate(CreateItemDto(name, description, price))
  {
  }

  /** The description never decides validity. */
  lemma DescriptionUnconstrained(name: Option<string>, d1: Option<string>, d2: Option<string>, price: real)
    ensures ValidCreate(CreateItemDto(name, d1, price)) <==> ValidCreate(CreateItemDto(name, d2, price))
    ensures ValidUpdate(UpdateItemDto(name, d1, price)) <==> ValidUpdate(UpdateItemDto(name, d2, price))
  {
  }

  /** With a usable name, a price is accepted exactly when it rounds into
      1..1000: prices 0.75 and 1000.5 pass, 0.5 and 1000.75 do not. Both
      request shapes agree. */
  lemma PriceAcceptedWindow(name: string, description: Option<string>)
    requires !Blank(name)
    ensures forall p: real :: ValidCreate(CreateItemDto(Some(name), description, p)) <==> 0.5 < p <= 1000.5
    ensures forall p: real :: ValidUpdate(UpdateItemDto(Some(name), description, p)) <==> 0.5 < p <= 1000.5
    ensures ValidCreate(CreateItemDto(Some(name), description, 0.75))
    ensures ValidCreate(CreateItemDto(Some(name), description, 1000.5))
    ensures !ValidCreate(CreateItemDto(Some(name), description, 0.5))
    ensures !ValidCreate(CreateItemDto(Some(name), description, 1000.75))
  {
  }

  /** A missing or blank name is rejected whatever the price. */
  lemma BlankNameRejected(name: Option<string>, description: Option<string>, price: real)
    requires name.None? || Blank(name.value)
    ensures !ValidCreate(CreateItemDto(name, description, price))
    ensures !ValidUpdate(UpdateItemDto(name, description, price))
  {
  }
}
