/** `get_email_body` of mail.py: which part of a Gmail message payload gives
    the text the extractor reads. Base64 decoding (with undecodable bytes
    dropped) and BeautifulSoup's `get_text` are not modelled; they are the
    parameters `decode` and `htmlText`. */
module EmailBody {
  import opened Wrappers
  import opened Trim

  const PLAIN: string := "text/plain"
  const HTML: string := "text/html"

  /** One entry of the payload's `parts` list, reduced to the two keys read:
      `mimeType` and `body.data` (either may be missing). */
  datatype Part = Part(mimeType: Option<string>, data: Option<string>)

  /** A message payload: `parts` is present, possibly empty, exactly when the
      payload dictionary has a `parts` key. */
  datatype Payload = Payload(mimeType: Option<string>, data: Option<string>, parts: Option<seq<Part>>)

  /** Python's `if data:` on `body.get('data')`: present and non-empty. */
  predicate HasData(data: Option<string>) {
    data.Some? && data.value != []
  }

  /** A part the selection may take its text from. */
  predicate Qualifies(p: Part) {
    HasData(p.data) && (p.mimeType == Some(PLAIN) || p.mimeType == Some(HTML))
  }

  /** The text a qualifying part yields: plain text decoded and stripped,
      HTML decoded, reduced to its text and stripped. */
  function Render(p: Part, decode: string -> string, htmlText: string -> string): string
    requires Qualifies(p)
  {
    if p.mimeType == Some(PLAIN) then Strip(decode(p.data.value)) else Strip(htmlText(decode(p.data.value)))
  }

  /** The `for part in payload['parts']` loop with its early returns. A part
      without data is passed over, and so is a part of another type once
      decoded; decoding has no effect of its own here, so both come down to
      the part not qualifying. */
  function SelectFromParts(parts: seq<Part>, decode: string -> string, htmlText: string -> string): (body: string)
    ensures Trimmed(body)
    ensures (forall q :: 0 <= q < |parts| ==> !Qualifies(parts[q])) ==> body == []
  {
    if parts == [] then []
    else if Qualifies(parts[0]) then Render(parts[0], decode, htmlText)
    else SelectFromParts(parts[1..], decode, htmlText)
  }

  /** `get_email_body(payload)`: the parts loop when there is a `parts` key,
      otherwise the same test and rendering on the payload's own type and data. */
  function GetEmailBody(payload: Payload, decode: string -> string, htmlText: string -> string): (body: string)
    ensures Trimmed(body)
  {
    if payload.parts.Some? then SelectFromParts(payload.parts.value, decode, htmlText)
    else
      var own := Part(payload.mimeType, payload.data);
      if Qualifies(own) then Render(own, decode, htmlText) else []
  }

  /** The parts loop returns the text of the first qualifying part: parts
      without data and parts of other types before it are passed over. */
  lemma {:induction false} SelectFirstQualifying(parts: seq<Part>, q: nat, decode: string -> string, htmlText: string -> string)
    requires q < |parts| && Qualifies(parts[q])
    requires forall r :: 0 <= r < q ==> !Qualifies(parts[r])
    ensures SelectFromParts(parts, decode, htmlText) == Render(parts[q], decode, htmlText)
  {
    if q > 0 {
      assert !Qualifies(parts[0]);
      SelectFirstQualifying(parts[1..], q - 1, decode, htmlText);
    }
  }

  /** A multipart payload's body comes from its first qualifying part, and
      its own top-level data and type play no part. */
  lemma MultipartBody(payload: Payload, q: nat, decode: string -> string, htmlText: string -> string)
    requires payload.parts.Some? && q < |payload.parts.value| && Qualifies(payload.parts.value[q])
    requires forall r :: 0 <= r < q ==> !Qualifies(payload.parts.value[r])
    ensures GetEmailBody(payload, decode, htmlText) == Render(payload.parts.value[q], decode, htmlText)
  {
    SelectFirstQualifying(payload.parts.value, q, decode, htmlText);
  }

  /** Without a qualifying part, or with a single-part payload that does not qualify, the body is empty. */
  lemma NoQualifyingPartGivesEmpty(payload: Payload, decode: string -> string, htmlText: string -> string)
    requires payload.parts.Some? ==> forall q :: 0 <= q < |payload.parts.value| ==> !Qualifies(payload.parts.value[q])
    requires payload.parts.None? ==> !Qualifies(Part(payload.mimeType, payload.data))
    ensures GetEmailBody(payload, decode, htmlText) == []
  {
  }

  /** A single-part payload is treated exactly as a multipart payload whose
      only part is the payload itself. */
  lemma SinglePartAsOnePart(payload: Payload, decode: string -> string, htmlText: string -> string)
    requires payload.parts.None?
    ensures GetEmailBody(payload, decode, htmlText)
         == SelectFromParts([Part(payload.mimeType, payload.data)], decode, htmlText)
  {
    var parts := [Part(payload.mimeType, payload.data)];
    assert parts[1..] == [];
  }
}
