/** Printing a document and parsing the text again, as it is done before a tree is loaded. */
module XmlReload {
  import opened Wrappers
  import opened XmlText
  import opened XmlModel
  import opened XmlRoundTrip
  import XmlParser
  import XmlPrinter

  lemma {:induction false} PrintableAreCStrings(kids: seq<Element>)
    requires Printable(kids)
    ensures XmlPrinter.Printer.CStrings(kids)
    decreases kids
  {
    if kids != [] {
      PrintableAreCStrings(kids[0].kids);
      PrintableAreCStrings(kids[1..]);
    }
  }

  /** The document comes back exactly when no attribute name is repeated within an element, elements with
      children are nested less deep than the limit, no value has a CR, and there is an element. */
  method PrintAndParse(kids: seq<Element>, compact: bool) returns (again: seq<Element>, error: Option<XmlError>)
    requires Printable(kids)
    ensures error.None? && again == kids <==>
            kids != [] && DistinctNames(kids) && 1 + Height(kids) < MAX_DEPTH && NoReturns(kids)
  {
    hide Parse, XmlModel.KidsText, Fits, NoReturns, DistinctNames, Height, Printable;
    PrintableAreCStrings(kids);
    var printer := new XmlPrinter.Printer(compact, 0);
    printer.PrintKids(kids);
    Owes(kids, compact);
    var document := new XmlParser.Document(printer.buffer);
    again := document.ParseDocument();
    error := document.errorId;
    RoundTrip(kids, 0, compact);
    FitsIsShallow(kids, 1);
  }

  lemma Owes(kids: seq<Element>, compact: bool)
    ensures [] + XmlPrinter.Printer.Owed(kids, 0, compact, false, true) == Print(kids, 0, compact)
  {
  }
}
