/** The optional values the extractors pass around: a biome holder that may
    lack a registry key, a `java.util.Optional`, a nullable map lookup. */
module Options {

  datatype Option<+T> = None | Some(value: T) {

    /** The wrapped value, or `default` when there is none (Kotlin's `?:`). */
    function GetOr(default: T): T
    {
      match this
      case Some(v) => v
      case None => default
    }
  }
}
