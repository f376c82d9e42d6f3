/** The comment-submission endpoint: it checks the four fields of a parsed
    request body in a fixed order, cleans them, hands one `comment` document
    to the content store and answers with a status, a message and an `err`
    payload. The store call is not modelled; its outcome is a parameter. */
module CreateComment {
  import opened Wrappers
  import opened Whitespace
  import opened Sanitize

  /** The parsed request body. `None` stands for a field that is absent or
      `null`; every present field is a string. */
  datatype Payload = Payload(
    id: Option<string>,
    name: Option<string>,
    email: Option<string>,
    comment: Option<string>)

  /** A typed reference from the comment to its post. */
  datatype Reference = Reference(refType: string, ref: string)

  /** The document handed to the content store. It has exactly these
      fields; in particular it carries no `approved` flag, so the comment
      starts unmoderated. */
  datatype CommentDoc = CommentDoc(
    docType: string,
    post: Reference,
    name: string,
    email: string,
    comment: string)

  /** What the content store's create call does with the document. */
  datatype StoreOutcome = Stored | StoreFailed(error: string)

  /** The `err` member of the JSON answer: a reason on a validation failure,
      the echoed identity on success, the store's error on a failure. */
  datatype ErrBody =
    | Reason(text: string)
    | Echo(id: string, name: string, email: string)
    | Raw(error: string)

  datatype Response = Response(status: int, message: string, err: ErrBody)

  /** The answer together with the document sent to the store, if any. */
  datatype Outcome = Outcome(response: Response, sent: Option<CommentDoc>)

  const FailMessage: string := "Could not submit comment"
  const SuccessMessage: string := "Submitted"

  /** The checked fields, in the order the handler checks them. */
  datatype Field = Id | Name | Email | Comment

  const CheckOrder: seq<Field> := [Id, Name, Email, Comment]

  function ReasonFor(f: Field): string {
    match f
    case Id => "_id not found"
    case Name => "name format not valid"
    case Email => "email format not valid"
    case Comment => "comment format not valid"
  }

  /** JavaScript falsiness of a string-or-absent value: `!v` holds for
      `undefined`, `null` and the empty string. */
  predicate Missing(v: Option<string>) {
    v.None? || v.value == ""
  }

  /** The answer for a request rejected because of field `f`. */
  function Reject(f: Field): Outcome {
    Outcome(Response(400, FailMessage, Reason(ReasonFor(f))), None)
  }

  /** A document as the handler builds it: a `comment` whose post reference
      is non-empty, whose name and email are non-empty and free of
      whitespace, and whose text has non-whitespace ends. */
  predicate WellFormedDoc(d: CommentDoc) {
    && d.docType == "comment"
    && d.post.refType == "reference"
    && d.post.ref != ""
    && d.name != [] && NoWs(d.name)
    && d.email != [] && NoWs(d.email)
    && TightEnds(d.comment)
  }

  /** The check-and-clean step for `name` and `email`: the field is
      refused when it is missing or nothing is left once every whitespace
      character is removed; otherwise that stripped value is kept. */
  function CheckStripped(v: Option<string>): (r: Option<string>)
    ensures r.None? <==> v.None? || AllWs(v.value)
    ensures r.Some? ==> r.value == StripAll(v.value) && r.value != [] && NoWs(r.value)
  {
    if Missing(v) || StripAll(v.value) == "" then None else Some(StripAll(v.value))
  }

  /** The check-and-clean step for `comment`: the field is refused when it
      is missing or nothing is left once it is trimmed; otherwise the
      trimmed value is kept. */
  function CheckTrimmed(v: Option<string>): (r: Option<string>)
    ensures r.None? <==> v.None? || AllWs(v.value)
    ensures r.Some? ==> r.value == Trim(v.value) && IsTrimOf(v.value, r.value) && TightEnds(r.value)
  {
    if Missing(v) || Trim(v.value) == "" then None else Some(Trim(v.value))
  }

  /** The request handler. */
  function Handle(p: Payload, store: StoreOutcome): (h: Outcome)
    ensures h.response.status == 400 || h.response.status == 200 || h.response.status == 500
    ensures h.response.status == 400 <==> h.sent.None?
    ensures h.response.status == 400 ==> h.response.message == FailMessage && h.response.err.Reason?
    ensures Missing(p.id) ==> h == Reject(Id)
    ensures h.sent.Some? ==> WellFormedDoc(h.sent.value) && h.sent.value.post.ref == p.id.value
    ensures h.response.status == 200 <==> h.sent.Some? && store.Stored?
    ensures h.response.status == 200 ==>
      h.response == Response(200, SuccessMessage,
                             Echo(p.id.value, h.sent.value.name, h.sent.value.email))
    ensures h.response.status == 500 ==>
      store.StoreFailed? && h.response == Response(500, FailMessage, Raw(store.error))
  {
    if Missing(p.id) then Reject(Id)
    else match CheckStripped(p.name)
      case None => Reject(Name)
      case Some(name) => match CheckStripped(p.email)
        case None => Reject(Email)
        case Some(email) => match CheckTrimmed(p.comment)
          case None => Reject(Comment)
          case Some(comment) =>
            var doc := CommentDoc("comment", Reference("reference", p.id.value), name, email, comment);
            match store
            case Stored => Outcome(Response(200, SuccessMessage, Echo(p.id.value, name, email)), Some(doc))
            case StoreFailed(e) => Outcome(Response(500, FailMessage, Raw(e)), Some(doc))
  }

  // ---------------------------------------------------------------------
  // An independent statement of the validation rules
  // ---------------------------------------------------------------------

  function FieldValue(p: Payload, f: Field): Option<string> {
    match f
    case Id => p.id
    case Name => p.name
    case Email => p.email
    case Comment => p.comment
  }

  /** What each field must satisfy, stated without the cleaners: the post
      id must be a non-empty string (whitespace is allowed), and the other
      three fields must contain at least one non-whitespace character. */
  predicate Acceptable(f: Field, v: Option<string>) {
    match f
    case Id => v.Some? && v.value != ""
    case _ => v.Some? && !AllWs(v.value)
  }

  /** The first field in `order` that is not acceptable, if any. */
  function FirstRejected(p: Payload, order: seq<Field>): (r: Option<Field>)
    ensures r.Some? ==> r.value in order && !Acceptable(r.value, FieldValue(p, r.value))
    ensures r.Some? ==>
      (exists k :: 0 <= k < |order| && order[k] == r.value &&
        (forall i :: 0 <= i < k ==> Acceptable(order[i], FieldValue(p, order[i]))))
    ensures r.None? <==> forall i :: 0 <= i < |order| ==> Acceptable(order[i], FieldValue(p, order[i]))
  {
    if order == [] then None
    else if !Acceptable(order[0], FieldValue(p, order[0])) then Some(order[0])
    else FirstRejected(p, order[1..])
  }

  /** Every field is acceptable. */
  predicate AllAcceptable(p: Payload) {
    && Acceptable(Id, p.id)
    && Acceptable(Name, p.name)
    && Acceptable(Email, p.email)
    && Acceptable(Comment, p.comment)
  }

  /** `FirstRejected` over the check order, spelled out field by field. */
  lemma FirstRejectedInCheckOrder(p: Payload)
    ensures FirstRejected(p, CheckOrder) ==
      if !Acceptable(Id, p.id) then Some(Id)
      else if !Acceptable(Name, p.name) then Some(Name)
      else if !Acceptable(Email, p.email) then Some(Email)
      else if !Acceptable(Comment, p.comment) then Some(Comment)
      else None
    ensures FirstRejected(p, CheckOrder).None? <==> AllAcceptable(p)
  {
    var o1: seq<Field> := [Comment];
    var o2: seq<Field> := [Email, Comment];
    var o3: seq<Field> := [Name, Email, Comment];
    assert o1[1..] == [] && o2[1..] == o1 && o3[1..] == o2 && CheckOrder[1..] == o3;
    assert FirstRejected(p, o1) == if !Acceptable(Comment, p.comment) then Some(Comment) else None;
    assert FirstRejected(p, o2) == if !Acceptable(Email, p.email) then Some(Email) else FirstRejected(p, o1);
    assert FirstRejected(p, o3) == if !Acceptable(Name, p.name) then Some(Name) else FirstRejected(p, o2);
  }

  /** The handler rejects exactly the requests with an unacceptable field,
      and the reason it gives is that of the first such field in the order
      `_id`, `name`, `email`, `comment`; a rejected request never reaches
      the store. */
  lemma RejectsFirstInvalidField(p: Payload, store: StoreOutcome)
    ensures Handle(p, store).response.status == 400 <==> FirstRejected(p, CheckOrder).Some?
    ensures FirstRejected(p, CheckOrder).Some? ==>
      Handle(p, store) == Reject(FirstRejected(p, CheckOrder).value)
  {
    FirstRejectedInCheckOrder(p);
  }

  /** A request is rejected for its post id exactly when the id is absent or
      empty; an id made of whitespace only is accepted as it is. */
  lemma IdRule(p: Payload, store: StoreOutcome)
    ensures Handle(p, store) == Reject(Id) <==> Missing(p.id)
  {
  }

  /** With a post id present, the name decides next: it is rejected exactly
      when it is absent or all whitespace, and otherwise stored with every
      whitespace character removed. */
  lemma NameRule(p: Payload, store: StoreOutcome)
    requires !Missing(p.id)
    ensures Handle(p, store) == Reject(Name) <==> p.name.None? || AllWs(p.name.value)
    ensures Handle(p, store).sent.Some? ==>
      Handle(p, store).sent.value.name == StripAll(p.name.value)
  {
  }

  /** With the id and the name accepted, the email is rejected exactly when
      it is absent or all whitespace, and otherwise stored with every
      whitespace character removed. */
  lemma EmailRule(p: Payload, store: StoreOutcome)
    requires !Missing(p.id) && p.name.Some? && !AllWs(p.name.value)
    ensures Handle(p, store) == Reject(Email) <==> p.email.None? || AllWs(p.email.value)
    ensures Handle(p, store).sent.Some? ==>
      Handle(p, store).sent.value.email == StripAll(p.email.value)
  {
  }

  /** With the other three fields accepted, the comment is rejected exactly
      when it is absent or all whitespace. Otherwise the stored text is the
      input with whitespace removed at both ends only: a contiguous piece of
      the input, non-empty, with non-whitespace ends and the same
      non-whitespace characters in the same order. */
  lemma CommentRule(p: Payload, store: StoreOutcome)
    requires !Missing(p.id)
    requires p.name.Some? && !AllWs(p.name.value)
    requires p.email.Some? && !AllWs(p.email.value)
    ensures Handle(p, store) == Reject(Comment) <==> p.comment.None? || AllWs(p.comment.value)
    ensures Handle(p, store).sent.Some? ==>
      && IsTrimOf(p.comment.value, Handle(p, store).sent.value.comment)
      && TightEnds(Handle(p, store).sent.value.comment)
      && StripAll(Handle(p, store).sent.value.comment) == StripAll(p.comment.value)
  {
    if p.comment.Some? {
      TrimKeepsText(p.comment.value);
    }
  }

  /** When every field is acceptable and the store accepts the document,
      exactly one document is sent: a `comment` referencing the post by its
      id and holding the cleaned fields; the answer is 200 `Submitted`
      echoing the id and the cleaned name and email. */
  lemma AcceptedAndStored(p: Payload)
    requires AllAcceptable(p)
    ensures Handle(p, Stored).sent ==
      Some(CommentDoc("comment", Reference("reference", p.id.value),
                      StripAll(p.name.value), StripAll(p.email.value), Trim(p.comment.value)))
    ensures Handle(p, Stored).response ==
      Response(200, SuccessMessage, Echo(p.id.value, StripAll(p.name.value), StripAll(p.email.value)))
  {
    FirstRejectedInCheckOrder(p);
    RejectsFirstInvalidField(p, Stored);
  }

  /** When every field is acceptable but the store call fails, the same
      document was sent and the answer is 500 with the store's error. */
  lemma AcceptedButStoreFailed(p: Payload, e: string)
    requires AllAcceptable(p)
    ensures Handle(p, StoreFailed(e)).sent == Handle(p, Stored).sent
    ensures Handle(p, StoreFailed(e)).response == Response(500, FailMessage, Raw(e))
  {
    FirstRejectedInCheckOrder(p);
    RejectsFirstInvalidField(p, Stored);
    RejectsFirstInvalidField(p, StoreFailed(e));
  }

  /** A rejected request does not depend on the store at all. */
  lemma RejectionIgnoresStore(p: Payload, s1: StoreOutcome, s2: StoreOutcome)
    requires Handle(p, s1).response.status == 400
    ensures Handle(p, s2) == Handle(p, s1)
  {
  }

  /** The request that resubmits a stored document's own fields. */
  function Resubmission(d: CommentDoc): Payload {
    Payload(Some(d.post.ref), Some(d.name), Some(d.email), Some(d.comment))
  }

  /** Re-checking a field that `CheckStripped` has cleaned keeps it. */
  lemma CheckStrippedStable(v: Option<string>)
    requires CheckStripped(v).Some?
    ensures CheckStripped(Some(CheckStripped(v).value)) == CheckStripped(v)
  {
    StripAllIdempotent(v.value);
  }

  /** Re-checking a field that `CheckTrimmed` has cleaned keeps it. */
  lemma CheckTrimmedStable(v: Option<string>)
    requires CheckTrimmed(v).Some?
    ensures CheckTrimmed(Some(CheckTrimmed(v).value)) == CheckTrimmed(v)
  {
    TrimIdempotent(v.value);
  }

  /** Cleaning is idempotent, so resubmitting what was stored sends the same
      document and gets the same answer. */
  lemma ResubmissionIsStable(p: Payload, store: StoreOutcome)
    requires Handle(p, store).sent.Some?
    ensures Handle(Resubmission(Handle(p, store).sent.value), store) == Handle(p, store)
  {
    CheckStrippedStable(p.name);
    CheckStrippedStable(p.email);
    CheckTrimmedStable(p.comment);
  }

  /** A worked request of the shape `name = "Kyle Ray"`,
      `email = " a@b.com "`, `comment = "  Great post!  "`: the space inside
      the name and the spaces around the email are dropped, and only the
      spaces around the comment are. */
  lemma SubmissionExample(id: string, first: string, last: string, addr: string, text: string)
    requires id != ""
    requires first != [] && NoWs(first) && NoWs(last)
    requires addr != [] && NoWs(addr)
    requires TightEnds(text)
    ensures Handle(Payload(Some(id), Some(first + " " + last), Some(" " + addr + " "),
                           Some("  " + text + "  ")), Stored)
         == Outcome(Response(200, SuccessMessage, Echo(id, first + last, addr)),
                    Some(CommentDoc("comment", Reference("reference", id), first + last, addr, text)))
  {
    var p := Payload(Some(id), Some(first + " " + last), Some(" " + addr + " "), Some("  " + text + "  "));
    ExampleName(first, " ", last);
    ExampleEmail(addr);
    ExampleComment(text);
    assert AllAcceptable(p);
    AcceptedAndStored(p);
  }

  /** The worked example itself: post `p1`, name `"Kyle Ray"`, email
      `" a@b.com "`, comment `"  Great post!  "`. */
  lemma SubmissionExampleLiteral()
    ensures Handle(Payload(Some("p1"), Some("Kyle Ray"), Some(" a@b.com "), Some("  Great post!  ")), Stored)
         == Outcome(Response(200, SuccessMessage, Echo("p1", "KyleRay", "a@b.com")),
                    Some(CommentDoc("comment", Reference("reference", "p1"), "KyleRay", "a@b.com", "Great post!")))
  {
    assert "Kyle" + " " + "Ray" == "Kyle Ray";
    assert " " + "a@b.com" + " " == " a@b.com ";
    assert "  " + "Great post!" + "  " == "  Great post!  ";
    assert "Kyle" + "Ray" == "KyleRay";
    assert NoWs("Kyle") && NoWs("Ray") && NoWs("a@b.com");
    assert TightEnds("Great post!");
    SubmissionExample("p1", "Kyle", "Ray", "a@b.com", "Great post!");
  }

  lemma ExampleName(first: string, sep: string, last: string)
    requires NoWs(first) && AllWs(sep) && NoWs(last)
    ensures StripAll(first + sep + last) == first + last
  {
    ExampleNameHead(first, sep);
    StripAllFixpoint(last);
    StripAllConcat(first + sep, last);
  }

  lemma ExampleNameHead(first: string, sep: string)
    requires NoWs(first) && AllWs(sep)
    ensures StripAll(first + sep) == first
  {
    StripAllFixpoint(first);
    StripAllConcat(first, sep);
  }

  lemma ExampleEmail(addr: string)
    requires NoWs(addr)
    ensures StripAll(" " + addr + " ") == addr
  {
    StripAllAround(" ", addr, " ");
    StripAllFixpoint(addr);
  }

  lemma ExampleComment(text: string)
    requires TightEnds(text)
    ensures Trim("  " + text + "  ") == text
  {
    var c := "  " + text + "  ";
    assert c[..2] == "  " && c[2 + |text|..] == "  " && c[2..2 + |text|] == text;
    assert IsTrimAt(c, text, 2);
    TrimUnique(c, text);
  }
}
