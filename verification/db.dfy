/** The parts of graff/db.py with logic of their own: the display size of a
    photo, and the row lookup by opaque id that every table inherits. */
module Db {
  import opened Wrappers
  import opened Strings
  import Crypto

  /** The widest a photo is shown on a page, in pixels. */
  const DisplayWidth: int := 900

  /** A row of the photo table, with the columns this model uses. */
  datatype Photo = Photo(id: int, fsid: string, contentType: string, photoHeight: int, photoWidth: int)

  datatype Dimensions = Dimensions(width: int, height: int)

  /** `Photo.html_dimensions`: photos up to the display width keep their
      size; wider ones are shown at the display width, their height scaled by
      the same factor and rounded down (Python 2 integer division). */
  function HtmlDimensions(photo: Photo): (r: Dimensions)
    ensures photo.photoWidth <= DisplayWidth ==> r == Dimensions(photo.photoWidth, photo.photoHeight)
    ensures photo.photoWidth > DisplayWidth ==> r.width == DisplayWidth
    ensures photo.photoWidth > DisplayWidth ==>
      r.height * photo.photoWidth <= photo.photoHeight * DisplayWidth < (r.height + 1) * photo.photoWidth
    ensures r.width <= DisplayWidth
    ensures photo.photoWidth > DisplayWidth && photo.photoHeight >= 0 ==> 0 <= r.height <= photo.photoHeight
  {
    if photo.photoWidth <= DisplayWidth then Dimensions(photo.photoWidth, photo.photoHeight)
    else
      var height := photo.photoHeight * DisplayWidth / photo.photoWidth;
      FloorDivision(photo.photoHeight * DisplayWidth, photo.photoWidth);
      ScaledDown(photo.photoHeight, photo.photoWidth, height);
      Dimensions(DisplayWidth, height)
  }

  /** Division by a positive divisor rounds down. */
  lemma FloorDivision(n: int, d: int)
    requires d > 0
    ensures (n / d) * d <= n < (n / d + 1) * d
  {
  }

  /** Scaling a non-negative height by 900 / width for a width above 900 and
      rounding down gives a height between 0 and the original. */
  lemma ScaledDown(height: int, width: int, scaled: int)
    requires width > DisplayWidth
    requires scaled * width <= height * DisplayWidth < (scaled + 1) * width
    ensures height >= 0 ==> 0 <= scaled <= height
  {
    if height >= 0 {
      NonNegativeProduct(height, width - DisplayWidth);
      assert height * DisplayWidth <= height * width by {
        assert height * width == height * DisplayWidth + height * (width - DisplayWidth);
      }
      CancelFactor(scaled, height, width);
      NonNegativeProduct(height, DisplayWidth);
      CancelFactor(-1, scaled, width);
    }
  }

  lemma NonNegativeProduct(a: int, b: int)
    requires a >= 0 && b >= 0
    ensures a * b >= 0
  {
  }

  /** A positive factor cancels from both sides of an inequality. */
  lemma CancelFactor(a: int, b: int, w: int)
    requires w > 0 && a * w <= b * w
    ensures a <= b
  {
    if a > b {
      NonNegativeProduct(a - b - 1, w);
    }
  }

  /** `_Base.encid`: the row's id as an opaque token. */
  function EncidOf(photo: Photo, key: Bytes, p: Crypto.Primitives): (r: Result<string, Crypto.EncodeError>)
    ensures r.Ok? <==> 0 <= photo.id < Crypto.IdLimit
    ensures r.Ok? ==> r == Crypto.Encid(photo.id, key, p)
  {
    Crypto.Encid(photo.id, key, p)
  }

  /** The first row of the table with the given id, as `.first()` returns it. */
  function FirstWithId(table: seq<Photo>, id: int): (r: Option<Photo>)
    ensures r.None? <==> forall i :: 0 <= i < |table| ==> table[i].id != id
    ensures r.Some? ==>
      (exists i :: 0 <= i < |table| && table[i] == r.value && r.value.id == id && forall j :: 0 <= j < i ==> table[j].id != id)
  {
    if table == [] then None
    else if table[0].id == id then Some(table[0])
    else
      var rest := FirstWithId(table[1..], id);
      if rest.Some? then
        var k :| 0 <= k < |table[1..]| && table[1..][k] == rest.value && rest.value.id == id
          && forall j :: 0 <= j < k ==> table[1..][j].id != id;
        assert table[k + 1] == rest.value;
        Some(rest.value)
      else None
  }

  /** `_Base.from_encid`: the row whose id the token decodes to, if there is
      one; the token's decoding error otherwise. */
  function FromEncid(table: seq<Photo>, token: string, key: Bytes, p: Crypto.Primitives): (r: Result<Option<Photo>, Crypto.DecodeError>)
    ensures r.Err? <==> Crypto.Decid(token, key, p).Err?
    ensures r.Err? ==> r.error == Crypto.Decid(token, key, p).error
    ensures r.Ok? ==> r.value == FirstWithId(table, Crypto.Decid(token, key, p).value)
    ensures r.Ok? ==> (r.value.None? <==> forall i :: 0 <= i < |table| ==> table[i].id != Crypto.Decid(token, key, p).value)
    ensures r.Ok? && r.value.Some? ==> r.value.value in table && r.value.value.id == Crypto.Decid(token, key, p).value
  {
    match Crypto.Decid(token, key, p)
    case Err(e) => Err(e)
    case Ok(rowId) => Ok(FirstWithId(table, rowId))
  }

  predicate UniqueIds(table: seq<Photo>)
  {
    forall i, j :: 0 <= i < j < |table| ==> table[i].id != table[j].id
  }

  /** With ids unique, as for a primary key, the lookup by id finds the row holding it. */
  lemma FirstWithIdFinds(table: seq<Photo>, i: int)
    requires UniqueIds(table) && 0 <= i < |table|
    ensures FirstWithId(table, table[i].id) == Some(table[i])
  {
    var r := FirstWithId(table, table[i].id);
    var k :| 0 <= k < |table| && table[k] == r.value && r.value.id == table[i].id
      && forall j :: 0 <= j < k ==> table[j].id != table[i].id;
  }

  /** Looking up a row by its own opaque id finds that row. */
  lemma FromEncidOfRow(table: seq<Photo>, i: int, key: Bytes, p: Crypto.Primitives)
    requires Crypto.Sound(p) && UniqueIds(table) && 0 <= i < |table|
    requires 0 <= table[i].id < Crypto.IdLimit
    ensures FromEncid(table, EncidOf(table[i], key, p).value, key, p) == Ok(Some(table[i]))
  {
    Crypto.EncidDecidRoundTrip(table[i].id, key, p);
    FirstWithIdFinds(table, i);
  }
}
