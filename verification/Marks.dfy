/** The unusedSince field that both controllers keep per tracked image. */
module Marks {
  /** Absent, a time, or the marker one hour into year 1 that makes an entry expire at once. */
  datatype Unused = InUse | Since(at: int) | Instant
}
