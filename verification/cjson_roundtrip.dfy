/** Printing a JSON value and parsing the text gives the value back. */
module CJsonRoundTrip {
  import opened JsonText
  import CJsonPrint
  import CJsonParse
  import CJsonGrammar

  /**
   A text that was printed is read back exactly if the value is not nested too deeply; printing is only limited
   by the size of its buffer.
   */
  method PrintThenParse(v: Json, format: bool, require_null_terminated: bool) returns (ok: bool, r: Json)
    ensures ok ==> r == v && CJsonParse.Shallow(v, CJsonParse.NESTING_LIMIT)
    ensures |TextOf(v, format)| + 4 <= CJsonPrint.INT_MAX ==> (ok <==> CJsonParse.Shallow(v, CJsonParse.NESTING_LIMIT))
  {
    var printed;
    ok, printed := CJsonPrint.Print(v, format);
    r := Null;
    if ok {
      CJsonGrammar.PrintedWhole(v, format);
      CJsonGrammar.PrintedAccepted(v, 0, format);
      ok, r := CJsonParse.Parse(printed, require_null_terminated, v, CJsonGrammar.PrintedTree(v, 0, format), [], []);
    }
  }
}
