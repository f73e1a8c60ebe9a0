# testBot questionnaire session, modelled in Dafny

testBot is a Flask web bot. It asks a visitor about their product, one
question at a time, and keeps a question/answer log. Everything that
decides the course of a conversation sits in the `index` view of `app.py`.
The view works on three per-session keys:

- `history`: the chat messages sent to the language model, starting with the system prompt;
- `qa_log`: the question/answer pairs recorded so far;
- `question_count`: the number of answers received.

A request that finds no `history` seeds all three keys. A GET appends the
fixed first question to the history in place. A POST does four things:

- it pairs the submitted answer with the content of the last history message;
- it appends the answer as a user message;
- it counts the answer;
- from the tenth answer on it sends the visitor to the completion page, and
  before that it appends the language model's stripped reply as the next question.

The `complete` view shows the log.

The session lives in Flask's signed cookie. It is written back at the end
of a request only if the request marked it modified. Assigning a key marks
it: seeding a new session does, and so does `question_count += 1` on every
POST. Appending to a stored list in place does not mark it, and the app
never makes the session permanent. So a GET on a session that already has
a history replies with the first question, but the cookie keeps the history
it had.

Files:

- `wrappers.dfy`: `Option`. A missing form field is `None` and is stored as `None`.
- `pytext.dfy`: Python's `str.strip()`, using the character set that `str.isspace()` accepts.
- `dialogue.dfy`: the session state as a value, `Conversation`. It holds
  the invariant every stored session keeps, and the transitions as
  functions: `Fresh`, `Start`, `Answer`, `Index` and `Transcript`.
  `Saved` gives what the cookie holds after one request, following the
  write-back rule above. `Replay` gives the cookie after a sequence of
  requests from a new visitor.
- `session.dfy`: the Flask session as a class, `App.Session`. It has the
  cookie, the request's session keys as fields updated in place, and the
  modified flag. `InitIfAbsent`, `Start`, `Answer` and `Complete` are
  proved equal to `Resume`, `Start`, `Answer` and `Transcript`. `Open`
  and `Close` state the cookie load and the write-back rule directly.
  `Handle` runs one whole request: load, handle, write back if modified.
  It is proved equal to `Index` for the reply and to `Saved` for the
  cookie.
- `interview.dfy`: properties of whole request sequences. These cover
  counting, append-only growth, when the interview completes and how many
  questions get asked.

The language model's reply is a parameter of the POST: `generated` is the
text that `response.choices[0].message.content` would hold.

## Model

| member | source | states |
|---|---|---|
| Dialogue.Fresh | app.py:31-34 | A new session's history is exactly the system prompt, its log is empty and its counter is zero. It already satisfies the session invariant. |
| App.Session.InitIfAbsent | app.py:31-34 | The keys are seeded only when the session has no history. An existing session is left exactly as it was, and afterwards the session is present and keeps the invariant. |
| Dialogue.Start | app.py:57-60 | A GET appends one assistant message holding the fixed first question, with no guard against repeats. The log and the counter do not change. |
| Dialogue.StartKeepsInvariant | app.py:57-60 | A GET keeps the session invariant. |
| App.Session.Start | app.py:57-60 | The in-place GET seeds the session if needed, returns the first question and leaves the request's session as `Dialogue.Start` and `Dialogue.Index` describe. It keeps the invariant. The session ends up marked modified only if it was already marked or had to be seeded. |
| Dialogue.Answer | app.py:36-55 | A POST appends `QA(content of the last history message, answer)` to the log, including a `None` answer, and adds one to the counter. The result is `Complete` exactly when the new count is at least 10, and then only the user message is appended. Otherwise the user message and an assistant message with the stripped reply are appended, and that reply is returned as the next question. |
| Dialogue.AnswerKeepsInvariant | app.py:38-41 | A POST keeps the session invariant. The new log entry is exactly the exchange that the new user message forms with the message before it, and the counter still equals the log length. |
| App.Session.Answer | app.py:36-55 | The in-place POST ends in the same state and returns the same reply as `Dialogue.Answer` on the seeded session. It also equals `Dialogue.Index` for a POST, and it keeps the invariant. The counter assignment marks the session modified. |
| App.Session.Open | app.py:30-31 | At the start of a request the session holds exactly what the cookie holds and is not marked modified. |
| App.Session.Close | app.py:29-60 | At the end of a request the cookie is rewritten with the session only if the session is marked modified; otherwise the cookie is kept. |
| App.Session.Handle | app.py:29-60 | One whole `index` request replies as `Dialogue.Index` on the cookie and leaves the cookie as `Dialogue.Saved` describes. |
| Dialogue.Saved | app.py:31-41 | After a POST, or any request on a session without keys, the cookie holds the request's final state. After a GET on an existing session the cookie is unchanged. |
| Dialogue.Index | app.py:29-60 | A GET replies with the first question. After any request, the old history is a proper prefix of the new history and the old log is a prefix of the new log. |
| Dialogue.IndexKeepsInvariant | app.py:29-60 | One request on a session, stored or absent, yields a session that keeps the invariant. |
| Dialogue.Transcript | app.py:63-65 | The `complete` view returns an empty list for a session without keys. Otherwise it returns the log, which equals the exchanges recorded in the history and has one entry per counted answer. |
| App.Session.Complete | app.py:63-65 | The read-only `complete` view: `[]` when the cookie has no session keys; otherwise the stored log, which equals the history's exchanges and has `question_count` entries. |
| PyText.LStripSpec | app.py:53 | `lstrip` leaves the suffix remaining after dropping only whitespace, and that suffix starts with a non-whitespace character or is empty. |
| PyText.RStripSpec | app.py:53 | `rstrip` leaves the prefix remaining after dropping only whitespace, and that prefix ends with a non-whitespace character or is empty. |
| PyText.StripSpec | app.py:53 | The stripped reply is the contiguous slice between the reply's first and last non-whitespace characters. Everything cut off is whitespace. |
| PyText.StripBlank | app.py:53 | A reply strips to the empty question exactly when it is all whitespace. |
| PyText.StripIdempotent | app.py:53 | Stripping an already stripped question changes nothing. |
| Interview.ExchangesCount | app.py:38-40 | A history that does not start with a user message yields one log entry per user message. |
| Interview.IndexGrowth | app.py:36-59 | One request adds one answer, one user message and one history entry per POST. It adds one assistant message per GET, and one per POST whose new count stays below 10. |
| Interview.ReplayStored | app.py:29-60 | Every sequence of requests from a new cookie leaves a session that keeps the invariant. So the system prompt is first and occurs only there, the log is the history's exchanges, and the counter equals the log length. |
| Interview.ReplayShape | app.py:31-60 | After any request sequence, the stored counter and log length both equal the number of POSTs, and so does the number of user messages. The stored assistant messages are the first question if the first request was a GET, plus one per answer up to nine answers. The history length is 1 + that + POSTs. |
| Interview.AppendOnly | app.py:31-60 | Further requests only append. The history and the log after some requests are prefixes of what they are later, and the system prompt stays at index 0. |
| Interview.ReplyToPost | app.py:41-44 | The n-th POST, counting from one, leads to completion exactly when n >= 10. So the first nine POSTs each get a next question, and the tenth and every later POST complete. |
| Interview.AssistantBound | app.py:41-59 | The stored history never holds more than ten assistant questions, however many GETs and answers there are. |
| Interview.CompletedEndsWithAnswer | app.py:40-44 | A POST that completes the conversation leaves its own answer as the last history message. |
| Interview.PostAfterComplete | app.py:37-44 | A POST after completion is still counted and logged. Its "question" is the answer of the previous POST, because that POST appended no question. |
| Interview.TranscriptLength | app.py:39-41 | The `complete` view lists exactly one entry per POST made on the session. |
| Interview.GetOnStoredSession | app.py:57-60 | A GET on an existing session replies with the first question and leaves the cookie unchanged. |
| Interview.GetMidInterview | app.py:57-60 | A GET anywhere after the first request changes nothing that any later request stores. |
| Interview.RepeatedGet | app.py:57-59 | Two GETs from a new visitor store the first question once. |
| Interview.PostBeforeGet | app.py:31-39 | A POST on a new session pairs the answer with the system prompt's text. |

### Behaviour of app.py worth knowing

- A missing `answer` field makes `request.form.get("answer")` return `None`. That `None` is logged and appended like any other answer, and so is an empty string.
- Each answer is paired with the content of whatever message is last in the stored history. The first POST on a new session, if no GET came before it, is paired with the system prompt (`Interview.PostBeforeGet`). A later POST is paired with the question stored by the POST before it, whether or not a GET ever happened. After completion it is the previous answer (`Interview.PostAfterComplete`).
- The language model's reply becomes the next question after `strip()`, with no further check.
- The transcript lives only in the session cookie. The `complete` view renders it and nothing else stores it.
- GETs and POSTs after completion are not guarded against. A later GET shows the first question again, but its append is not written back (`Interview.GetOnStoredSession`). A POST after completion is logged.

## Left out

- Flask routing, `render_template` and `redirect`: a redirect to the completion page is the `Complete` reply. The page content is not modelled, including the GET page always rendering an empty log.
- Session-cookie signing and the secret key: configuration and transport. A new visitor is `App.Session.constructor`. `permanent_session_lifetime` (app.py:12) is still the maximum age Flask accepts for the signed cookie. A request whose cookie was last written more than 60 minutes earlier starts a fresh session. Only seeding and POSTs rewrite the cookie, so the 60 minutes run from the last of those. Expiry is not modelled: `Replay` accepts every cookie.
- Flask's write-back rule is modelled only as far as app.py exercises it. A key assignment marks the session modified, an in-place list append does not, and the session is not permanent. Cookie expiry and cookie size limits are not modelled.
- `dotenv` and environment variables: configuration I/O.
- The OpenAI client call, with its model name, `max_tokens` and `temperature`: an external network service with nondeterministic output. Its reply text is the `generated` parameter. A failing call and a `None` message content, on which `.strip()` would raise, are not modelled. When the call fails, the answer and the counter have already been updated and the session marked modified. Outside debug mode Flask's error response still saves the session, so the answer is stored with no question after it, and the next POST is paired with that answer. Under `app.run(debug=True)` (app.py:69) nothing is saved.
- The wording of `SYSTEM_PROMPT`: the model uses a placeholder constant, and no property depends on the text. The four mandatory topics it asks for are requested of the language model and never checked by the code.
- Concurrency between requests on the same session: requests are modelled one at a time.
