/** The text form of a UUID. */
module Uuids {

  predicate IsHex(c: char) {
    '0' <= c <= '9' || 'a' <= c <= 'f' || 'A' <= c <= 'F'
  }

  /** `/^[0-9a-f]{8}-[0-9a-f]{4}-[1-8][0-9a-f]{3}-[89ab][0-9a-f]{3}-[0-9a-f]{12}$/i` */
  predicate IsUuid(id: string) {
    && |id| == 36
    && (forall i | 0 <= i < 36 :: if i in {8, 13, 18, 23} then id[i] == '-' else IsHex(id[i]))
    && '1' <= id[14] <= '8'
    && id[19] in "89abAB"
  }
}
