/** Shared value types: the optional value that stands for a nullable C pointer,
    and the fixed-width unsigned integers the C code passes around. */
module Common {

  /** A nullable pointer: `None` is NULL. */
  datatype Option<+T> = None | Some(value: T) {

    /** The pointed-to value, or `default` for NULL (the `p ? p : d` idiom). */
    function GetOr(default: T): (r: T)
      ensures Some? ==> r == value
      ensures None? ==> r == default
    {
      match this
      case Some(v) => v
      case None => default
    }
  }

  /** `guint` / `guint32`. */
  type uint32 = x: nat | x < 0x1_0000_0000

  /** `guint64`. */
  type uint64 = x: nat | x < 0x1_0000_0000_0000_0000

  /** `gint`. */
  type int32 = x: int | -0x8000_0000 <= x < 0x8000_0000
}
