/** `TempHumidity`: the reading handed to `TemperatureLog.log`. */
module TempHumidities {
  import opened JavaString
  import opened JavaDouble
  import opened Wrappers

  /** An immutable temperature and humidity. The constructor stores both
      values and the destructors are `getTemp` and `getHumidity`; the class
      has no setters, and a datatype value cannot change either. */
  datatype TempHumidity = TempHumidity(temp: Double, humidity: Double) {

    /** `toString()`; string concatenation prints a double with `Double.toString`. */
    function ToString(): (r: string)
      ensures |r| > 6 && r[..6] == "Temp: " && EndsWith(r, HUMID_LABEL + FormatDouble(humidity))
    {
      "Temp: " + FormatDouble(temp) + ", Humid: " + FormatDouble(humidity)
    }
  }

  const HUMID_LABEL: string := ", Humid: "

  /** In `x + rest` where `x` has no comma and `rest` starts with one, the
      first comma is right after `x`. */
  lemma FirstComma(x: string, rest: string)
    requires ',' !in x && |rest| > 0 && rest[0] == ','
    ensures IndexOf(x + rest, ",", 0) == |x|
  {
    var s := x + rest;
    assert s[|x|..|x| + 1] == ",";
    forall j: nat | j < |x| ensures !OccursAt(s, ",", j) {
      assert s[j..j + 1] == [x[j]];
      assert x[j] in x;
    }
    FirstMatch(s, ",", |x|);
  }

  /** Text without a comma, the label, then any text: the two parts can be
      told apart. */
  lemma LabelSeparates(x: string, y: string, u: string, v: string)
    requires ',' !in x && ',' !in u
    requires x + (HUMID_LABEL + y) == u + (HUMID_LABEL + v)
    ensures x == u && y == v
  {
    var s := x + (HUMID_LABEL + y);
    FirstComma(x, HUMID_LABEL + y);
    FirstComma(u, HUMID_LABEL + v);
    assert x == s[..|x|] && u == s[..|u|];
    assert y == s[|x| + 9..] && v == s[|u| + 9..];
  }

  /** Four strings joined from the left are the same four joined from the
      right. */
  lemma Regroup(p: string, x: string, l: string, y: string)
    ensures p + x + l + y == p + (x + (l + y))
  {
  }

  /** A common prefix can be taken off both sides. */
  lemma DropPrefix(p: string, x: string, y: string)
    requires p + x == p + y
    ensures x == y
  {
    assert x == (p + x)[|p|..];
    assert y == (p + y)[|p|..];
  }

  /** The printed text determines the reading: two readings whose numbers
      print as Java prints them are printed alike only when they are equal. */
  lemma ToStringInjective(a: TempHumidity, b: TempHumidity)
    requires WellBehaved(a.temp) && WellBehaved(a.humidity)
    requires WellBehaved(b.temp) && WellBehaved(b.humidity)
    requires a.ToString() == b.ToString()
    ensures a == b
  {
    var at, ah := FormatDouble(a.temp), FormatDouble(a.humidity);
    var bt, bh := FormatDouble(b.temp), FormatDouble(b.humidity);
    WellBehavedText(a.temp);
    WellBehavedText(b.temp);
    Regroup("Temp: ", at, HUMID_LABEL, ah);
    Regroup("Temp: ", bt, HUMID_LABEL, bh);
    DropPrefix("Temp: ", at + (HUMID_LABEL + ah), bt + (HUMID_LABEL + bh));
    LabelSeparates(at, ah, bt, bh);
    assert ParseDouble(at) == Some(a.temp) && ParseDouble(bt) == Some(b.temp);
  }
}
