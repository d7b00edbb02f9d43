/** `prettyPrintKeyValue` (src/utils/prettyPrintKeyValue.ts): one
    "label: value" line with the label padded to a column, or nothing. The
    line the function would hand to `console.log` is the result. */
module PrettyPrint {
  import opened JsStrings
  import opened Outcomes

  /** The label column: `key + ":"` right-padded with spaces. */
  function Label(key: string, padding: int): string {
    PadEnd(key + ":", padding)
  }

  /** The line printed for `key`, or `None` when nothing is printed. A
      missing value, the empty string and a value mentioning `undefined`
      print nothing. */
  function PrettyPrintKeyValue(key: string, value: Option<string>, padding: int := 30): (r: Option<string>)
    ensures r.None? <==> value.None? || value.value == "" || Contains(value.value, "undefined")
    ensures r.Some? ==> |r.value| == (if |key| + 1 >= padding then |key| + 1 else padding) + |value.value|
    ensures r.Some? ==> r.value[..|key| + 1] == key + ":"
    ensures r.Some? ==> forall i :: |key| + 1 <= i < |r.value| - |value.value| ==> r.value[i] == ' '
    ensures r.Some? ==> r.value[|r.value| - |value.value|..] == value.value
  {
    match value
    case None => None
    case Some(v) =>
      if v == "" || Contains(v, "undefined") then None
      else
        var field := Label(key, padding);
        assert (field + v)[..|key| + 1] == field[..|key| + 1];
        assert (field + v)[|field|..] == v;
        Some(field + v)
  }

  /** When the label fits its column, the value starts exactly at column
      `padding`, so consecutive lines align; a longer key pushes the value
      right instead of being cut. */
  lemma ValueStartsAtColumn(key: string, value: string, padding: int)
    requires value != "" && !Contains(value, "undefined")
    ensures var r := PrettyPrintKeyValue(key, Some(value), padding);
      r.Some? && (|key| + 1 <= padding ==> r.value[padding..] == value) &&
      (|key| + 1 > padding ==> r.value == key + ":" + value)
  {
    var r := PrettyPrintKeyValue(key, Some(value), padding);
    if |key| + 1 > padding {
      assert r.value == r.value[..|key| + 1] + r.value[|key| + 1..];
    }
  }
}
