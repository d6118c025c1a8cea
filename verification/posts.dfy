/**
 * The records of the post store (usecases.py and the `posts` schema of db.py):
 * the two lifecycle states of a post, one table row, and the `Post` value
 * that the publisher builds from a row before announcing it.
 */
module Posts {
  import opened Optional

  /** Seconds in a day, the unit the scenarios use for timestamps. */
  const Day := 24 * 60 * 60

  /** The `status` column: a post waits to be announced, or has been. */
  datatype PostStatus = PendingPublish | Published

  /**
   * One row of the `posts` table. `id` is the primary key. Timestamps are
   * whole seconds on one clock. `game_description` and `discount` are the
   * two columns the schema allows to be NULL, hence the Options.
   */
  datatype Row = Row(
    id: int,
    storeName: string,
    gameTitle: string,
    gameDescription: Option<string>,
    price: real,
    discount: Option<int>,
    updatedAt: int,
    status: PostStatus,
    storeLink: string)

  /** Every row is stored under its own id, the table's primary key. */
  predicate Keyed(rows: map<int, Row>)
  {
    forall id :: id in rows ==> rows[id].id == id
  }

  /** The `Post` record built from a row, carrying the computed discounted price. */
  datatype Post = Post(
    id: int,
    storeName: string,
    gameTitle: string,
    gameDescription: string,
    price: real,
    discountedPrice: real,
    discount: int,
    updatedAt: int,
    status: PostStatus,
    storeLink: string)

  /**
   * The price after a discount given in percent, (100 - discount) / 100 * price.
   * Nothing clamps the discount, so a discount above 100 yields a negative price.
   */
  function DiscountedPrice(price: real, discount: int): (r: real)
    ensures r == price - price * (discount as real) / 100.0
    ensures discount == 0 ==> r == price
    ensures discount == 100 ==> r == 0.0
    ensures 0.0 <= price && 0 <= discount <= 100 ==> 0.0 <= r <= price
    ensures 0.0 < price && 100 < discount ==> r < 0.0
  {
    (100 - discount) as real / 100.0 * price
  }

  /** The discount of the second row of the publishing scenario: 910% off 1000 is -8100. */
  lemma DiscountAboveHundredGoesNegative()
    ensures DiscountedPrice(1000.0, 910) == -8100.0
    ensures DiscountedPrice(312.0, 200) == -312.0
  {
  }

  /**
   * Builds the `Post` of a row. Converting a NULL discount to an integer, or
   * escaping a NULL description for the caption, raises; that is reported as None.
   */
  function ToPost(row: Row): (r: Option<Post>)
    ensures r.Some? <==> row.discount.Some? && row.gameDescription.Some?
    ensures r.Some? ==>
      && r.value.id == row.id
      && r.value.storeName == row.storeName
      && r.value.gameTitle == row.gameTitle
      && r.value.gameDescription == row.gameDescription.value
      && r.value.price == row.price
      && r.value.discount == row.discount.value
      && r.value.discountedPrice == row.price - row.price * (row.discount.value as real) / 100.0
      && r.value.updatedAt == row.updatedAt
      && r.value.status == row.status
      && r.value.storeLink == row.storeLink
  {
    match (row.discount, row.gameDescription)
    case (Some(discount), Some(description)) =>
      Some(Post(row.id, row.storeName, row.gameTitle, description, row.price,
                DiscountedPrice(row.price, discount), discount, row.updatedAt,
                row.status, row.storeLink))
    case _ => None
  }
}
