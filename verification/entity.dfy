/** The persisted user record (`entity.User`). */
module Entity {
  import opened ObjectIds

  /** A `time.Time`, as nanoseconds since Go's zero time (January 1, year 1, UTC). */
  type Time = int

  datatype User = User(
    id: ObjectId,
    name: string,
    email: string,
    password: string,   // the bcrypt hash, never the plaintext
    createdAt: Time,
    updatedAt: Time)

  /** `entity.User{}`, which the service treats as "no user". */
  const ZeroUser: User := User(NilObjectId, "", "", "", 0, 0)

  predicate IsZero(u: User) {
    u == ZeroUser
  }
}
