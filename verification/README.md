# Comment submission handler — a Dafny model

This project models the one piece of decision logic in the techporium blog:
the server-side endpoint `pages/api/createComment.ts`, which receives a
comment form as a JSON body with the fields `_id` (the post's id), `name`,
`email` and `comment`, validates and cleans them, and asks the Sanity content
store to create a `comment` document that references the post.

The handler checks the fields in a fixed order and stops at the first bad
one with status 400, message `Could not submit comment` and a reason in
`err`. `name` and `email` are cleaned with `replace(/\s/g, '')`, which
removes every whitespace character. `comment` is cleaned with `trim()`,
which removes whitespace at both ends only. When all four fields pass, one
document `{_type: 'comment', post: {_type: 'reference', _ref: _id}, name,
email, comment}` is sent to the store. The answer is 200 `Submitted`,
echoing the id and the cleaned name and email, or 500 with the store's error
if the create call fails.

Files:

- `wrappers.dfy` — `Option`, for fields that may be absent.
- `whitespace.dfy` — `IsWs`, the whitespace set shared by `\s` and
  `trim()`: the WhiteSpace and LineTerminator code points of ECMA-262
  (2023 edition), sections 12.2 and 12.3, with the Zs space separators of
  Unicode 15. Also `NoWs`, `AllWs` and `TightEnds`.
- `sanitize.dfy` — `StripAll` (the global `\s` replace) and `Trim`, with
  their characterisations, uniqueness and idempotence.
- `create_comment.dfy` — the payload, document and response datatypes, the
  handler `Handle`, an independent statement of the validation rules
  (`Acceptable`, `FirstRejected`), and the lemmas connecting the two.

The store call is not modelled. Its outcome (`Stored` or `StoreFailed(e)`)
is a parameter of `Handle`. The result records the document that was handed
to the store, if any, next to the response.

A missing or empty `_id` is answered with the reason `_id not found`
(`createComment.ts:22`). An `_id` made only of whitespace passes, because
only its falsiness is checked (`createComment.ts:19`).

## Model

| member | source | states |
|---|---|---|
| Sanitize.StripAll | pages/api/createComment.ts:31 | the stripped string is never longer than the input, holds no whitespace, and is empty exactly when the input is all whitespace |
| Sanitize.StripAllConcat | pages/api/createComment.ts:31 | stripping a concatenation gives the concatenation of the stripped parts, so the global replace acts character by character and keeps order |
| Sanitize.StripAllOne | pages/api/createComment.ts:31 | a single character is dropped exactly when it is whitespace |
| Sanitize.StripAllFixpoint | pages/api/createComment.ts:40 | stripping leaves a string unchanged exactly when it holds no whitespace |
| Sanitize.StripAllIdempotent | pages/api/createComment.ts:31 | stripping twice equals stripping once |
| Sanitize.StripAllKeepsContent | pages/api/createComment.ts:40 | each non-whitespace character keeps its number of occurrences, and no whitespace character survives |
| Sanitize.TextStart | pages/api/createComment.ts:49 | trim's left scan: everything before the offset is whitespace, and the character at the offset is not |
| Sanitize.TextEnd | pages/api/createComment.ts:49 | trim's right scan: everything from the offset on is whitespace, and the character before it is not |
| Sanitize.Trim | pages/api/createComment.ts:49 | the result is a contiguous piece of the input with only whitespace before and after it, either empty or with non-whitespace ends, and empty exactly when the input is all whitespace |
| Sanitize.TrimUnique | pages/api/createComment.ts:49 | any string that is such a piece equals `Trim` of the input, so the contract of `Trim` determines it |
| Sanitize.TrimIdempotent | pages/api/createComment.ts:49 | trimming twice equals trimming once |
| Sanitize.TrimKeepsText | pages/api/createComment.ts:42-49 | trimming removes whitespace only: after stripping all whitespace, the trimmed and untrimmed text are equal |
| CreateComment.CheckStripped | pages/api/createComment.ts:24-31 | a name or email is refused exactly when absent or all whitespace; otherwise the kept value is the stripped input, non-empty and whitespace-free |
| CreateComment.CheckTrimmed | pages/api/createComment.ts:42-49 | a comment is refused exactly when absent or all whitespace; otherwise the kept value is the trimmed input with non-whitespace ends |
| CreateComment.Handle | pages/api/createComment.ts:18-71 | status is 400, 200 or 500; 400 exactly when no document is sent; a missing id gives the `_id not found` rejection; a sent document is a well-formed `comment` referencing the given id; 200 exactly when a document is sent and stored, echoing the id and cleaned name and email; 500 only on a store failure, carrying its error |
| CreateComment.FirstRejected | pages/api/createComment.ts:19-48 | the first field of an order that breaks its rule: every field before it is acceptable; none exactly when every field in the order is acceptable |
| CreateComment.FirstRejectedInCheckOrder | pages/api/createComment.ts:19-48 | over the handler's order, the first rejected field is `_id` if unacceptable, else `name`, else `email`, else `comment`, and there is none exactly when all four are acceptable |
| CreateComment.RejectsFirstInvalidField | pages/api/createComment.ts:19-48 | the handler answers 400 exactly when some field breaks its rule, and then gives the reason of the first such field in the order `_id`, `name`, `email`, `comment` |
| CreateComment.IdRule | pages/api/createComment.ts:19-22 | the request is rejected for its id exactly when the id is absent or empty |
| CreateComment.NameRule | pages/api/createComment.ts:24-31 | with an id present, the name is the rejection reason exactly when it is absent or all whitespace; a stored name is the input with all whitespace removed |
| CreateComment.EmailRule | pages/api/createComment.ts:33-40 | with id and name accepted, the email is the rejection reason exactly when it is absent or all whitespace; a stored email is the input with all whitespace removed |
| CreateComment.CommentRule | pages/api/createComment.ts:42-49 | with the other fields accepted, the comment is the rejection reason exactly when it is absent or all whitespace; a stored comment is a trim of the input with non-whitespace ends and the same text |
| CreateComment.AcceptedAndStored | pages/api/createComment.ts:51-66 | a valid request with a successful store sends exactly the `comment` document with the post reference and cleaned fields, and answers 200 `Submitted` with the echo |
| CreateComment.AcceptedButStoreFailed | pages/api/createComment.ts:51-71 | a valid request whose store call fails sends the same document and answers 500 with the store's error |
| CreateComment.RejectionIgnoresStore | pages/api/createComment.ts:18-48 | a rejected request gives the same outcome whatever the store would do, so validation failures never reach it |
| CreateComment.CheckStrippedStable | pages/api/createComment.ts:24-40 | re-checking a cleaned name or email keeps it unchanged |
| CreateComment.CheckTrimmedStable | pages/api/createComment.ts:42-49 | re-checking a cleaned comment keeps it unchanged |
| CreateComment.ResubmissionIsStable | pages/api/createComment.ts:24-66 | resubmitting the stored document's fields gives the same document and the same answer |
| CreateComment.SubmissionExample | pages/api/createComment.ts:24-66 | a request shaped like `name = "Kyle Ray"`, `email = " a@b.com "`, `comment = "  Great post!  "` is stored as `KyleRay`, `a@b.com`, `Great post!` and answered 200 |
| CreateComment.SubmissionExampleLiteral | pages/api/createComment.ts:24-66 | the concrete request with `_id = "p1"`, `name = "Kyle Ray"`, `email = " a@b.com "`, `comment = "  Great post!  "` is stored as comment `Great post!` by `KyleRay` at `a@b.com`, referencing post `p1`, and answered 200 `Submitted` echoing those cleaned values |

## Left out

- `JSON.parse(req.body)` (`createComment.ts:16`) is runtime JSON decoding outside the `try`; the model starts from the parsed fields.
- Fields that are present but not strings are not modelled. A number or object would make `.replace` or `.trim` throw, which the handler reports as 500. Values such as `0` or `false` would also be falsy for the checks. Every present field is a string here, as it is from the comment form, which posts `JSON.stringify(data)` of its text inputs and a hidden `_id` input (`pages/post/[slug].tsx:33-35,141-146`).
- `sanityClient.create` (`createComment.ts:51-60`) is network I/O. Its result is the `StoreOutcome` parameter, and its error is modelled as a string where JavaScript allows any value.
- The HTTP response object, `async`/`await` and JSON serialisation of the answer are not modelled; the answer is the `Response` value.
- Dafny characters are Unicode scalar values while JavaScript strings are UTF-16 code units. Every whitespace code point lies in the Basic Multilingual Plane outside the surrogate range, so the two views agree on which characters are whitespace. Lone surrogates cannot be written in the model.
- The Zs space separators are fixed at Unicode 15. A JavaScript engine uses the Unicode version it ships with.
- `pages/index.tsx`, `components/header.tsx` and `components/banner.tsx` are rendering and content-store queries with no validation logic.
- `pages/post/[slug].tsx` holds the comment form (`pages/post/[slug].tsx:141-189`). Its react-hook-form `required` checks run in the browser and are not modelled. The handler does not rely on them.
- The `approved` flag appears only as its absence: `CommentDoc` has no such field, so a new comment starts unmoderated. Moderation happens in the external CMS.
