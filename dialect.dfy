/** The choice of regex dialect in `main`: the `--device` option, lowered,
    names iOS, the old export format or CSV; anything else means Android. */
module Dialect {

  /** The four export dialects the preprocessor has patterns for. */
  datatype Device = Android | Ios | Old | Csv

  /** The spelling the command-line help gives for each dialect. */
  function Name(d: Device): string {
    match d
    case Android => "Android"
    case Ios => "iOS"
    case Old => "old"
    case Csv => "csv"
  }

  predicate IsUpper(c: char) { 'A' <= c <= 'Z' }

  predicate IsLower(c: char) { 'a' <= c <= 'z' }

  /** One character of `str.lower()`, on the ASCII letters. */
  function LowerChar(c: char): (l: char)
    ensures IsUpper(c) ==> IsLower(l) && l as int == c as int + 32
    ensures !IsUpper(c) ==> l == c
  {
    if IsUpper(c) then (c as int + 32) as char else c
  }

  /** One character of `str.upper()`, on the ASCII letters. */
  function UpperChar(c: char): (u: char)
    ensures IsLower(c) ==> IsUpper(u) && u as int == c as int - 32
    ensures !IsLower(c) ==> u == c
  {
    if IsLower(c) then (c as int - 32) as char else c
  }

  /** `s.lower()`, character by character. */
  function Lower(s: string): (r: string)
    ensures |r| == |s|
    ensures forall i :: 0 <= i < |s| ==> r[i] == LowerChar(s[i])
  {
    if |s| == 0 then [] else [LowerChar(s[0])] + Lower(s[1..])
  }

  /** `s.upper()`, character by character. */
  function Upper(s: string): (r: string)
    ensures |r| == |s|
    ensures forall i :: 0 <= i < |s| ==> r[i] == UpperChar(s[i])
  {
    if |s| == 0 then [] else [UpperChar(s[0])] + Upper(s[1..])
  }

  /** The if/elif chain over `device.lower()`: each dialect is picked by
      exactly the spellings that lower to its own name, and Android by
      every other string. */
  function Select(device: string): (d: Device)
    ensures d == Ios <==> Lower(device) == "ios"
    ensures d == Old <==> Lower(device) == "old"
    ensures d == Csv <==> Lower(device) == "csv"
    ensures d == Android <==> Lower(device) !in ["ios", "old", "csv"]
  {
    var l := Lower(device);
    if l == "ios" then Ios
    else if l == "old" then Old
    else if l == "csv" then Csv
    else Android
  }

  /** Lowering twice is lowering once. */
  lemma LowerIdempotent(s: string)
    ensures Lower(Lower(s)) == Lower(s)
  {
  }

  /** Upper-casing first does not change the lowered text. */
  lemma LowerUpper(s: string)
    ensures Lower(Upper(s)) == Lower(s)
  {
  }

  /** The choice ignores case: two spellings that lower alike pick the
      same dialect, so in particular the all-capitals spelling picks what
      the original does. */
  lemma SelectIgnoresCase(a: string, b: string)
    requires Lower(a) == Lower(b)
    ensures Select(a) == Select(b)
    ensures Select(Upper(a)) == Select(a)
  {
    LowerUpper(a);
  }

  /** Every dialect is picked by the name the help text gives it, and by
      that name in capitals. */
  lemma SelectName(d: Device)
    ensures Select(Name(d)) == d
    ensures Select(Upper(Name(d))) == d
  {
  }
}
