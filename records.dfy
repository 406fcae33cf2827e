/** The records the store reads and writes (one per table of the schema),
    their zero values, and the storage error the store can report. */
module Records {

  datatype Option<+T> = None | Some(value: T)

  /** A storage error surfaced to the caller. The only one the model raises is
      SQLite's UNIQUE violation, which names the offending column ("users.name"). */
  datatype DbError = UniqueConstraintFailed(column: string)

  /** A row of `picnics`. The date is kept as the string the caller supplied. */
  datatype Picnic = Picnic(id: int, name: string, location: string, date: string)

  /** A row of `users`; `name` carries a UNIQUE constraint. */
  datatype User = User(id: int, name: string)

  /** A row of the link table `users_picnics`. */
  datatype UserPicnic = UserPicnic(id: int, userId: int, picnicId: int)

  /** A row of `food_items`. */
  datatype FoodItem = FoodItem(id: int, name: string, url: string, measure: string)

  /** A row of `contributions`. */
  datatype Contribution = Contribution(id: int, userId: int, picnicId: int, foodItemId: int, quantity: int)

  /** The zero-valued records a point query returns when no row matches. */
  const ZeroPicnic := Picnic(0, "", "", "")
  const ZeroUser := User(0, "")
  const ZeroFoodItem := FoodItem(0, "", "", "")
  const ZeroContribution := Contribution(0, 0, 0, 0, 0)

  /** The primary key of each table. */
  function PicnicId(p: Picnic): int { p.id }
  function UserId(u: User): int { u.id }
  function UserPicnicId(l: UserPicnic): int { l.id }
  function FoodItemId(f: FoodItem): int { f.id }
  function ContributionId(c: Contribution): int { c.id }
}
