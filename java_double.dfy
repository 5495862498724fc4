/** Java's `double` as far as the log sees it: a value that is printed with
    `Double.toString` and read back with `Double.parseDouble`. The log never
    computes with it, so the type and both library calls stay abstract. */
module JavaDouble {
  import opened Wrappers

  /** A Java `double`. */
  type Double(==)

  /** `Double.toString(x)` (also what string concatenation prints for a double). */
  const FormatDouble: Double -> string

  /** `Double.parseDouble(text)`; `None` where it throws `NumberFormatException`. */
  const ParseDouble: string -> Option<Double>

  /** The characters `Double.toString` prints: decimal digits, a minus sign,
      a point, the exponent marker and the letters of NaN and Infinity. */
  const NumberChars: string := "0123456789-.EINaNfinity"

  /** What the JDK documents of `Double.toString(x)` and the log relies on:
      the text is non-empty, uses only `NumberChars` (so it has no space,
      comma, bar or line break), and `parseDouble` reads it back as the same
      value. The lemmas that need these facts take them as a precondition on
      the values involved. */
  predicate WellBehaved(x: Double) {
    && ParseDouble(FormatDouble(x)) == Some(x)
    && FormatDouble(x) != ""
    && forall k :: 0 <= k < |FormatDouble(x)| ==> FormatDouble(x)[k] in NumberChars
  }

  /** A well-behaved number's text has no space, comma, bar or line break. */
  lemma WellBehavedText(x: Double)
    requires WellBehaved(x)
    ensures ' ' !in FormatDouble(x) && ',' !in FormatDouble(x)
    ensures '|' !in FormatDouble(x) && '\n' !in FormatDouble(x)
  {
    var t := FormatDouble(x);
    forall k | 0 <= k < |t| ensures t[k] != ' ' && t[k] != ',' && t[k] != '|' && t[k] != '\n' {
      assert t[k] in NumberChars;
    }
  }
}
