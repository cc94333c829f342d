/**
 * The contact helpers: create a contact, enumerate the address book with
 * an addressbook-query REPORT (section 8.6 of RFC 6352) and read its
 * multistatus answer (section 13 of RFC 4918), select a contact by full
 * name, and update or delete a contact addressed by its href.
 *
 * The HTTP client, the XML parser and the vCard library are not modelled:
 * the transport is a function from request to response, the XML parser a
 * function from the response body to the response elements it finds (in
 * document order), and a card is the record the vCard library parses.
 */
module CardDav {
  import opened Options
  import opened Strings
  import opened Vcard
  import opened Transport

  const UnknownName := "Unknown"
  const NoContactsFound := "No contacts found"
  const ContactNotFound := "Contact not found"
  const VCardContentType := ("content-type", "text/vcard")

  // ---------------------------------------------------------------------
  // Creating, updating and deleting.

  /** Python's `d.get(key, default)`. */
  function DictGet(d: map<string, string>, key: string, default: string): string
  {
    if key in d then d[key] else default
  }

  /**
   * The card of a new contact: FN is the 'fullname' entry or "Unknown",
   * EMAIL the 'email' entry or "", and nothing else.
   */
  function NewCard(info: map<string, string>): (card: Card)
    ensures card.fn.Some? && card.email.Some? && card.note.None?
    ensures card.fn.value == if "fullname" in info then info["fullname"] else UnknownName
    ensures card.email.value == if "email" in info then info["email"] else ""
  {
    Card(Some(DictGet(info, "fullname", UnknownName)), Some(DictGet(info, "email", "")), None)
  }

  /** The PUT that creates a contact under the file name `<id>.vcf` made from a fresh identifier. */
  function CreateRequest(url: string, info: map<string, string>, id: string): Request
  {
    Request(PUT, url + "/" + id + ".vcf", [VCardContentType], VCardText(NewCard(info)))
  }

  /**
   * What the create and update helpers give back: a boolean, or the error
   * the vCard library raises while serialising the card. Serialising
   * happens before the request and outside the handler, so that error
   * reaches the caller and no request is sent.
   */
  datatype WriteOutcome = Returned(ok: bool) | SerializeRaised

  /**
   * Creates a contact. `serializes` says which cards the vCard library
   * serialises without raising. Once the card is serialised, the result
   * is `True` iff the PUT succeeds; a failed PUT is caught and gives `False`.
   */
  function CreateContact(url: string, info: map<string, string>, id: string,
                         serializes: Card -> bool, send: Request -> Response): (r: WriteOutcome)
    ensures r.SerializeRaised? <==> !serializes(NewCard(info))
    ensures r.Returned? ==>
      (r.ok <==> Succeeds(send(Request(PUT, url + "/" + id + ".vcf", [("content-type", "text/vcard")],
                                       VCardText(NewCard(info))))))
  {
    if !serializes(NewCard(info)) then SerializeRaised
    else Returned(Succeeds(send(CreateRequest(url, info, id))))
  }

  /**
   * The file name an href stands for: its last `/`-separated segment. It
   * holds no `/`, ends the href, and is either the whole href or follows a `/`.
   */
  function ContactFileName(href: string): (name: string)
    ensures '/' !in name
    ensures |name| <= |href| && href[|href| - |name|..] == name
    ensures |name| < |href| ==> href[|href| - |name| - 1] == '/'
  {
    LastSegmentIsSuffix(href, '/');
    LastSegment(href, '/')
  }

  /** The PUT that replaces a contact's card. */
  function UpdateRequest(url: string, card: Card, href: string): Request
  {
    Request(PUT, url + "/" + ContactFileName(href), [VCardContentType], VCardText(card))
  }

  /**
   * Replaces a contact's card. A card the vCard library cannot serialise
   * raises before the request; otherwise the result is `True` iff the PUT
   * succeeds, and a failed PUT is caught and gives `False`.
   */
  function UpdateContact(url: string, card: Card, href: string,
                         serializes: Card -> bool, send: Request -> Response): (r: WriteOutcome)
    ensures r.SerializeRaised? <==> !serializes(card)
    ensures r.Returned? ==>
      (r.ok <==> Succeeds(send(Request(PUT, url + "/" + ContactFileName(href), [("content-type", "text/vcard")],
                                       VCardText(card)))))
  {
    if !serializes(card) then SerializeRaised
    else Returned(Succeeds(send(UpdateRequest(url, card, href))))
  }

  /** The DELETE of a contact. */
  function DeleteRequest(url: string, href: string): Request
  {
    Request(DELETE, url + "/" + ContactFileName(href), [], NoBody)
  }

  /** `True` iff the DELETE succeeds; every failure is caught and gives `False`. */
  function DeleteContact(url: string, href: string, send: Request -> Response): (ok: bool)
    ensures ok <==> Succeeds(send(Request(DELETE, url + "/" + ContactFileName(href), [], NoBody)))
  {
    Succeeds(send(DeleteRequest(url, href)))
  }

  /** A full href and its bare file name address the same resource, for update and for delete. */
  lemma HrefAndFileNameAgree(url: string, card: Card, href: string)
    ensures UpdateRequest(url, card, href) == UpdateRequest(url, card, ContactFileName(href))
    ensures DeleteRequest(url, href) == DeleteRequest(url, ContactFileName(href))
  {
    LastSegmentIdempotent(href, '/');
  }

  /** An href without `/` is used whole. */
  lemma BareHrefUsedWhole(url: string, card: Card, href: string)
    requires '/' !in href
    ensures UpdateRequest(url, card, href).url == url + "/" + href
    ensures DeleteRequest(url, href).url == url + "/" + href
  {
    LastSegmentOfFree(href, '/');
  }

  /**
   * The href the server reports for a created contact ends in `/<id>.vcf`
   * whatever path precedes it, so updating or deleting through that href
   * addresses the resource the create wrote (for an identifier without `/`).
   */
  lemma CreatedContactAddressedByHref(url: string, info: map<string, string>, id: string, card: Card, path: string)
    requires '/' !in id
    ensures UpdateRequest(url, card, path + "/" + id + ".vcf").url == CreateRequest(url, info, id).url
    ensures DeleteRequest(url, path + "/" + id + ".vcf").url == CreateRequest(url, info, id).url
  {
    assert '/' !in id + ".vcf";
    assert path + "/" + id + ".vcf" == path + ['/'] + (id + ".vcf");
    LastSegmentAfterSep(path, id + ".vcf", '/');
  }

  // ---------------------------------------------------------------------
  // Enumerating the address book.

  /** The addressbook-query body, asking for the ETag, display name and address data of every card. */
  const ReportBody :=
    "\n"
    + "    <card:addressbook-query xmlns:d=\"DAV:\" xmlns:card=\"urn:ietf:params:xml:ns:carddav\">\n"
    + "        <d:prop>\n"
    + "            <d:getetag />\n"
    + "            <d:displayname />\n"
    + "            <card:address-data />\n"
    + "        </d:prop>\n"
    + "    </card:addressbook-query>\n"
    + "    "

  /** The REPORT sent to the address book collection, with `Depth: 1`. */
  function ReportRequest(url: string): (req: Request)
    ensures req.verb == REPORT && req.url == url + "/"
    ensures req.headers == [("content-type", "application/xml"), ("depth", "1")]
  {
    Request(REPORT, url + "/", [("content-type", "application/xml"), ("depth", "1")], Text(ReportBody))
  }

  /** A `DAV:href` child: missing, or present with text (`None` when the element is empty). */
  datatype HrefElement = NoHrefElement | HrefElement(text: Option<string>)

  /** The first address-data descendant: missing, present but not a card, or a parsed card. */
  datatype AddressData = NoAddressData | Unparsable | Parsed(card: Card)

  /** One `DAV:response` element of the multistatus answer. */
  datatype ResponseElement = ResponseElement(href: HrefElement, addressData: AddressData)

  /** One enumerated contact: its full name, its href and its card. */
  datatype Contact = Contact(fn: string, href: Option<string>, vcard: Card)

  /**
   * An element the loop gets through without raising: its href is read
   * first, so it must be there, and address data, when present, must parse.
   */
  predicate Readable(e: ResponseElement)
  {
    e.href.HrefElement? && !e.addressData.Unparsable?
  }

  /**
   * The record of an element with a card: FN, or "Unknown" when the card
   * has none; the text of the element's href; and the card.
   */
  function ContactOf(e: ResponseElement): (c: Contact)
    requires e.addressData.Parsed?
    ensures c.vcard == e.addressData.card
    ensures e.href.HrefElement? ==> c.href == e.href.text
    ensures e.href.NoHrefElement? ==> c.href.None?
    ensures e.addressData.card.fn.Some? ==> c.fn == e.addressData.card.fn.value
    ensures e.addressData.card.fn.None? ==> c.fn == UnknownName
  {
    Contact(e.addressData.card.fn.GetOr(UnknownName), if e.href.HrefElement? then e.href.text else None,
            e.addressData.card)
  }

  /**
   * The records of the elements that carry address data, in document
   * order; elements without address data are skipped.
   */
  function ContactsOf(elements: seq<ResponseElement>): (cs: seq<Contact>)
    ensures |cs| <= |elements|
    ensures forall i | 0 <= i < |elements| && elements[i].addressData.Parsed? :: ContactOf(elements[i]) in cs
  {
    if elements == [] then []
    else (if elements[0].addressData.Parsed? then [ContactOf(elements[0])] else []) + ContactsOf(elements[1..])
  }

  /** Every record comes from an element that carries a card. */
  lemma {:induction false} ContactsOfSound(elements: seq<ResponseElement>, c: Contact)
    requires c in ContactsOf(elements)
    ensures exists i | 0 <= i < |elements| :: elements[i].addressData.Parsed? && c == ContactOf(elements[i])
    decreases |elements|
  {
    if !(elements[0].addressData.Parsed? && c == ContactOf(elements[0])) {
      ContactsOfSound(elements[1..], c);
      var i :| 0 <= i < |elements[1..]| && elements[1..][i].addressData.Parsed? && c == ContactOf(elements[1..][i]);
      assert elements[i + 1] == elements[1..][i];
    }
  }

  /** Records keep document order: the records of a concatenation are the concatenated records. */
  lemma {:induction false} ContactsOfAppend(a: seq<ResponseElement>, b: seq<ResponseElement>)
    ensures ContactsOf(a + b) == ContactsOf(a) + ContactsOf(b)
    decreases |a|
  {
    if a != [] {
      assert (a + b)[1..] == a[1..] + b;
      ContactsOfAppend(a[1..], b);
    } else {
      assert a + b == b;
    }
  }

  predicate AllReadable(elements: seq<ResponseElement>)
  {
    forall i | 0 <= i < |elements| :: Readable(elements[i])
  }

  /** The enumeration's result: `None` on any failure, never a partial list. */
  function Enumeration(url: string, send: Request -> Response,
                       parseXml: Bytes -> Option<seq<ResponseElement>>): Option<seq<Contact>>
  {
    var response := send(ReportRequest(url));
    if !Succeeds(response) then None
    else match parseXml(response.content)
      case None => None
      case Some(elements) => if AllReadable(elements) then Some(ContactsOf(elements)) else None
  }

  /**
   * Enumerates the address book: sends the REPORT, parses the answer and
   * collects one record per response element with address data. Any
   * failure (a request error, XML that does not parse, an element without
   * href, a card that does not parse) gives `None`.
   */
  method FetchContacts(url: string, send: Request -> Response, parseXml: Bytes -> Option<seq<ResponseElement>>)
    returns (contacts: Option<seq<Contact>>)
    ensures contacts == Enumeration(url, send, parseXml)
  {
    var response := send(ReportRequest(url));
    if !Succeeds(response) {
      return None;
    }
    var tree := parseXml(response.content);
    if tree.None? {
      return None;
    }
    var elements := tree.value;
    assert Enumeration(url, send, parseXml) == if AllReadable(elements) then Some(ContactsOf(elements)) else None;
    var found: seq<Contact> := [];
    var i := 0;
    while i < |elements|
      invariant 0 <= i <= |elements|
      invariant forall j | 0 <= j < i :: Readable(elements[j])
      invariant found == ContactsOf(elements[..i])
    {
      var e := elements[i];
      if e.href.NoHrefElement? {
        // reading the text of a missing href raises
        assert !Readable(elements[i]);
        return None;
      }
      var href := e.href.text;
      if !e.addressData.NoAddressData? {
        if e.addressData.Unparsable? {
          // the vCard parser raises
          assert !Readable(elements[i]);
          return None;
        }
        var card := e.addressData.card;
        var fn := card.fn.GetOr(UnknownName);
        assert ContactOf(e) == Contact(fn, href, card);
        found := found + [Contact(fn, href, card)];
      }
      assert elements[..i + 1] == elements[..i] + [e];
      ContactsOfAppend(elements[..i], [e]);
      i := i + 1;
    }
    assert elements[..i] == elements;
    return Some(found);
  }

  // ---------------------------------------------------------------------
  // Selecting a contact by name.

  /** The lookup by name returns a record or raises with a message. */
  datatype Lookup = Found(contact: Contact) | Raised(message: string)

  /**
   * What the lookup by name promises for an enumeration result: "No
   * contacts found" when the enumeration failed, "Contact not found" when
   * no record has that full name (an empty list included), and otherwise
   * the LAST record with that name.
   */
  predicate SelectsLast(contacts: Option<seq<Contact>>, fn: string, r: Lookup)
  {
    match contacts
    case None => r == Raised(NoContactsFound)
    case Some(cs) =>
      if forall i | 0 <= i < |cs| :: cs[i].fn != fn then r == Raised(ContactNotFound)
      else r.Found? && exists i | 0 <= i < |cs| ::
        cs[i] == r.contact && cs[i].fn == fn && forall j | i < j < |cs| :: cs[j].fn != fn
  }

  /** The selection loop: it never stops early, so a later match replaces an earlier one. */
  method SelectContact(contacts: Option<seq<Contact>>, fn: string) returns (r: Lookup)
    ensures SelectsLast(contacts, fn, r)
  {
    if contacts.None? {
      return Raised(NoContactsFound);
    }
    var cs := contacts.value;
    var retrieved: Option<Contact> := None;
    ghost var at := -1;
    var i := 0;
    while i < |cs|
      invariant 0 <= i <= |cs|
      invariant retrieved.None? <==> forall j | 0 <= j < i :: cs[j].fn != fn
      invariant retrieved.Some? ==> 0 <= at < i && cs[at] == retrieved.value && cs[at].fn == fn
      invariant retrieved.Some? ==> forall j | at < j < i :: cs[j].fn != fn
    {
      if cs[i].fn == fn {
        retrieved := Some(cs[i]);
        at := i;
      }
      i := i + 1;
    }
    if retrieved.None? {
      return Raised(ContactNotFound);
    }
    return Found(retrieved.value);
  }

  /** Enumerates the address book and selects the last contact with full name `fn`. */
  method FetchContact(url: string, fn: string, send: Request -> Response,
                      parseXml: Bytes -> Option<seq<ResponseElement>>) returns (r: Lookup)
    ensures SelectsLast(Enumeration(url, send, parseXml), fn, r)
  {
    var contacts := FetchContacts(url, send, parseXml);
    r := SelectContact(contacts, fn);
  }

  /** The two failures raise with different messages. */
  lemma FailuresAreDistinguishable(contacts: Option<seq<Contact>>, fn: string, r: Lookup)
    requires SelectsLast(contacts, fn, r) && r.Raised?
    ensures r.message == NoContactsFound <==> contacts.None?
  {
  }

  /**
   * A contact created with `info` and listed with its card is found by the
   * name the create wrote: 'fullname', or "Unknown" when it was absent.
   */
  lemma CreatedContactIsFound(elements: seq<ResponseElement>, k: nat, info: map<string, string>, r: Lookup)
    requires k < |elements| && elements[k].addressData == Parsed(NewCard(info))
    requires SelectsLast(Some(ContactsOf(elements)), DictGet(info, "fullname", UnknownName), r)
    ensures r.Found? && r.contact.fn == DictGet(info, "fullname", UnknownName)
  {
    var cs := ContactsOf(elements);
    var c := ContactOf(elements[k]);
    assert c in cs;
    var i :| 0 <= i < |cs| && cs[i] == c;
    assert cs[i].fn == DictGet(info, "fullname", UnknownName);
  }
}
