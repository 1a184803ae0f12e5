/**
 * `Defaults::default_message` of defaults.rs: the HTML page sent as the body
 * of every response that has none of its own.
 */
module Defaults {
  import opened Text
  import opened Status

  const HTML_OPEN: string := "\n<html>"
  const HTML_CLOSE: string := "</html>"
  /** The page up to the code in its `<h1>` line. */
  const PAGE_HEAD: string := HTML_OPEN + "\n  <title>Anduin Error</title>\n  <body>\n    <h1> "
  /** The page after the reason phrase. */
  const PAGE_TAIL: string := " </h1>\n  </body>\n" + HTML_CLOSE

  /** The page text: the fixed template with the code and the reason phrase put in its `<h1>` line. */
  function DefaultPage(code: nat, reason: string): (page: string)
    ensures |page| == 81 + NumDigits(code) + |reason|
  {
    DecimalLength(code);
    PAGE_HEAD + Decimal(code) + " " + reason + PAGE_TAIL
  }

  /**
   * `Defaults::default_message`: the page for a status, as bytes. It
   * depends only on the status's (code, reason) pair; each status's code
   * has three digits, so the page is 84 bytes plus the reason.
   */
  function DefaultMessage(status: ResponseCode): (m: seq<Byte>)
    ensures |m| == 84 + |status.Get().1|
  {
    var (code, reason) := status.Get();
    ThreeDigits(code);
    Bytes(DefaultPage(code, reason))
  }

  /** The page begins with "\n<html>" and ends with "</html>". */
  lemma DefaultPageFrame(code: nat, reason: string)
    ensures StartsWith(DefaultPage(code, reason), HTML_OPEN)
    ensures var page := DefaultPage(code, reason); page[|page| - |HTML_CLOSE|..] == HTML_CLOSE
  {
    var page := DefaultPage(code, reason);
    var middle := PAGE_HEAD[|HTML_OPEN|..] + Decimal(code) + " " + reason + PAGE_TAIL[..|PAGE_TAIL| - |HTML_CLOSE|];
    assert page == HTML_OPEN + middle + HTML_CLOSE;
  }

  /** The `<h1>` line holds the decimal code, a space and the reason phrase, in that order. */
  lemma DefaultPageHeading(code: nat, reason: string)
    ensures OccursAt(DefaultPage(code, reason), Decimal(code), |PAGE_HEAD|)
    ensures OccursAt(DefaultPage(code, reason), " " + reason, |PAGE_HEAD| + |Decimal(code)|)
  {
    var page := DefaultPage(code, reason);
    var k := |PAGE_HEAD| + |Decimal(code)|;
    assert page[|PAGE_HEAD|..k] == Decimal(code);
    assert page[k..k + 1 + |reason|] == " " + reason;
  }

  /** A code from 100 to 999 is written with three digits. */
  lemma ThreeDigits(code: nat)
    requires 100 <= code <= 999
    ensures NumDigits(code) == 3
  {
    assert NumDigits(code / 100) == 1;
    assert NumDigits(code / 10) == 1 + NumDigits(code / 10 / 10);
    assert code / 10 / 10 == code / 100;
  }

  /** Any part of the reason phrase occurs in the page, after the code and a space. */
  lemma ReasonInPage(code: nat, reason: string, i: nat, j: nat)
    requires i <= j <= |reason|
    ensures OccursAt(DefaultPage(code, reason), reason[i..j], |PAGE_HEAD| + |Decimal(code)| + 1 + i)
  {
    var pre := PAGE_HEAD + Decimal(code) + " ";
    var page := DefaultPage(code, reason);
    assert page == pre + reason + PAGE_TAIL;
    forall q | |pre| + i <= q < |pre| + j
      ensures page[q] == reason[q - |pre|]
    {
    }
    assert page[|pre| + i..|pre| + j] == reason[i..j];
  }

  /** NotFound is code 404, written "404", with the reason "Not Found ". */
  lemma NotFoundStatus()
    ensures NotFound.Get() == (404, "Not Found ")
    ensures Decimal(404) == "404"
  {
    assert NotFound.Phrase() + " " == "Not Found ";
    assert Decimal(4) == "4";
    assert Decimal(40) == "4" + [DigitChar(0)] == "40";
    assert Decimal(404) == "40" + [DigitChar(4)] == "404";
  }

  /** The page for NotFound has "404" and then "Not Found" in its `<h1>` line. */
  lemma NotFoundPage()
    ensures OccursAt(DefaultPage(NotFound.Get().0, NotFound.Get().1), "404", |PAGE_HEAD|)
    ensures OccursAt(DefaultPage(NotFound.Get().0, NotFound.Get().1), "Not Found", |PAGE_HEAD| + 4)
  {
    NotFoundStatus();
    var (code, reason) := NotFound.Get();
    DefaultPageHeading(code, reason);
    ReasonInPage(code, reason, 0, 9);
  }
}
