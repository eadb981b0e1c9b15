# Zak AI chat core, modelled in Dafny

This project models the logic inside Zak AI's chat and image features.

- **The server's message relay** (`POST /api/conversations/:id/messages`). It stores the user's message and streams the model's text fragments as server-sent events. It looks for a `[[GENERATE_IMAGE: …]]` directive in the reply, asks the image model for a picture, stores the assistant's reply and ends with `done`. If something fails, it reports the error.
- **The conversation routes.** These list, get, create and delete conversations, with their ownership checks and defaults.
- **The client's stream consumer** (`useChatStream.sendMessage`). It updates the cache optimistically and posts the message. It splits the response into frames on blank lines, keeps the partial frame, and builds the transcript the user sees. In every case it ends by resetting its state and invalidating two queries.
- **`buildUrl`**, the route-template substitution.
- **Image selection.** This is the choice of the first inline image part and its MIME type, shared by `/api/generate-image` and the chat relay.

Everything is a pure function over immutable datatypes.

The relay returns a **trace of effects**: messages stored, events written, the image call, and the final JSON reply. The properties below are about that trace:
- the ordering rules;
- which messages are stored;
- that the events' text is the stored reply;
- which failures become a `500` reply and which become an `error` event (`res.headersSent` becomes true at the first write).

The round trip links the two sides. The server writes its events, the bytes are cut into reads at arbitrary points, and the client reassembles them. The client's transcript is then the assistant message the server stored.

Layout, one module per file:
- `wrappers.dfy`: Option, and JavaScript's `||` on an optional string.
- `http.dfy`: replies.
- `text.dfy`: search, concatenation, join, decimals.
- `json.dfy`: `JSON.stringify`/`JSON.parse` for flat objects.
- `events.dfy`: the server's events and frames.
- `directive.dfy`: the image directive matcher.
- `image.dfy`: image selection and `/api/generate-image`.
- `store.dfy`: the conversation store.
- `chat_routes.dfy`: the conversation routes.
- `relay.dfy`: the message route.
- `sse_client.dfy`: frame reassembly.
- `chat_hook.dfy`: `sendMessage`.
- `build_url.dfy`: `buildUrl`, as written and with literal substitution.
- `round_trip.dfy`: server to client.

## Model

| member | source | states |
|---|---|---|
| Directive.FindFrom | server/replit_integrations/chat/routes.ts:145 | The result is the leftmost index at or after `i` where `[[GENERATE_IMAGE:`, greedy white space (line terminators included), a capture free of line terminators and the first `]]` match. No match anywhere after `i` gives None. |
| Directive.MatchAtSound | server/replit_integrations/chat/routes.ts:145 | The scanner succeeds at a marker exactly when the regular expression matches there, and it returns the same capture. |
| Directive.ImagePrompt | server/replit_integrations/chat/routes.ts:145-147 | A prompt is produced exactly when there is a first match and its capture is non-empty. The prompt is that capture. |
| Directive.DirectiveDeterministic | server/replit_integrations/chat/routes.ts:145 | A match starting at a given index has exactly one capture: the lazy group stops at the first `]]`. |
| Directive.GreedySpaceSuffices | server/replit_integrations/chat/routes.ts:145 | If backtracking into `\s*` would reach a `]]`, the greedy space run reaches the same `]]`, so backtracking never yields a different match. |
| Directive.PromptShape | server/replit_integrations/chat/routes.ts:145-147 | The captured prompt lies on one line, contains no `]]`, and does not start with white space. |
| Directive.EmptyCaptureSuppresses | server/replit_integrations/chat/routes.ts:146 | If the first match has an empty capture, no image is requested, even when a later directive has a prompt. |
| Wrappers.OrElse | server/replit_integrations/image/routes.ts:51 | A present, non-empty value is kept. An absent or empty one gives the fallback, as JavaScript's `or` operator does. |
| ImageSelection.FindInline | server/replit_integrations/image/routes.ts:45 | The result is the first part carrying `inlineData`. None means that no part carries it. |
| ImageSelection.SelectImage | server/replit_integrations/image/routes.ts:44-51 | The image is taken from the first part with `inlineData` in the first candidate. Its data is non-empty and kept verbatim, and its MIME type defaults to `image/png`. No such part, or empty data, gives no image. |
| ImageSelection.OnlyFirstInlinePartMatters | server/replit_integrations/image/routes.ts:44-45 | Two responses that agree up to the first inline part select the same image. |
| ImageSelection.DataUriReadBack | server/replit_integrations/chat/routes.ts:162-163 | The data URI is `data:`, the MIME type, `;base64,`, then the data. If the type holds no `;`, both can be read back. |
| ImageSelection.GenerateImage | server/replit_integrations/image/routes.ts:29-58 | An absent or empty prompt gives 400 without a model call, and any other prompt (white space included) is sent verbatim. A throwing call gives 500 "Failed to generate image". A missing image gives 500 "No image data in response". Success gives 200 with exactly the selected data and MIME type. |
| ChatStore.GetConversation | server/replit_integrations/chat/routes.ts:59-62 | A conversation is found exactly when it exists and belongs to the requesting user. |
| ChatStore.ConversationsOf | server/replit_integrations/chat/routes.ts:46 | The listed ids are exactly the user's conversations. |
| ChatStore.CreateConversation | server/replit_integrations/chat/routes.ts:76 | A fresh id gets an empty conversation owned by the user with the given title. No other conversation changes. |
| ChatStore.DeleteConversation | server/replit_integrations/chat/routes.ts:89 | The user's conversation is gone afterwards. Someone else's conversation or a missing one leaves the store unchanged, and other conversations are kept. |
| ChatStore.CreateMessage | server/replit_integrations/chat/routes.ts:111 | The message is appended to that conversation's messages. Other conversations and visibility are unchanged. |
| ChatStore.CreateThenDeleteListing | server/replit_integrations/chat/routes.ts:72-95 | Creating adds exactly the new id to the user's listing, and deleting it restores the listing. |
| ChatRoutes.ListRoute | server/replit_integrations/chat/routes.ts:43-52 | 200 with exactly the user's conversations, or 500 "Failed to fetch conversations" if the storage fails. |
| ChatRoutes.GetRoute | server/replit_integrations/chat/routes.ts:55-69 | A missing or unowned conversation gives 404. A storage failure gives 500. Otherwise 200 with the stored conversation (owner and title) together with its stored messages. |
| ChatRoutes.CreateRoute | server/replit_integrations/chat/routes.ts:72-82 | 201 with a fresh conversation titled as given, or "New Chat" if the title is absent or empty. It is then listed for the user. A storage failure gives 500 and no change. |
| ChatRoutes.DeleteRoute | server/replit_integrations/chat/routes.ts:85-95 | 204 whether or not the conversation existed. Afterwards the user cannot see it. A missing or unowned id changes nothing, the user's other conversations are unchanged, and no other user's conversation changes. |
| ChatRelay.Relay | server/replit_integrations/chat/routes.ts:136-142 | There is one content event per non-empty fragment, in arrival order, and none for empty ones. The accumulator is the concatenation of all fragments, and the events' text equals it. |
| ChatRelay.SendMessage | server/replit_integrations/chat/routes.ts:104-108 | The store stays well formed. A missing or unowned conversation gives only a 404 reply, with nothing stored or written. |
| ChatRelay.SendOrdering | server/replit_integrations/chat/routes.ts:110-190 | There is exactly one terminal effect, at the end. The user message is stored first, and the model sees the history including it. The assistant message is stored at most once, directly before `done`, which ends the stream. A 500 JSON reply never follows a write. |
| ChatRelay.ImageStepSpec | server/replit_integrations/chat/routes.ts:144-174 | The image model is called only with the directive's prompt, and only if there is one. At most one image event is written. The accumulator gains the image markdown exactly when an image was obtained. |
| ChatRelay.SendSucceeds | server/replit_integrations/chat/routes.ts:134-180 | Two messages are stored: the user's, then the reply, which is the fragments plus the image markdown if any. The events are the content events, then the image event, then `done`, and their text is the stored reply. |
| ChatRelay.ImageFailureSwallowed | server/replit_integrations/chat/routes.ts:158-179 | When the image call throws or returns no data, the stored reply is exactly the concatenated fragments, and `done` is still the last effect. |
| ChatRelay.NoPromptNoImageCall | server/replit_integrations/chat/routes.ts:146 | Without a non-empty prompt the image model is never called. |
| ChatRelay.SendFails | server/replit_integrations/chat/routes.ts:181-190 | A failure while streaming or storing stores only the user message. If anything was written, a single `error` event follows; if nothing was, the reply is 500 JSON. The events' text is what was streamed. |
| ChatRelay.StoreFollowsTrace | server/replit_integrations/chat/routes.ts:110-177 | In every case the store changes only by the messages the trace records, appended in order to this conversation. |
| Events.DataLineShape | server/replit_integrations/chat/routes.ts:140 | A frame body is `data: ` followed by the JSON, all on one line, so the blank line after it is the only separator the client finds. |
| Json.Encode | server/replit_integrations/chat/routes.ts:140 | The encoded object contains no raw control character (no line feed) and is braced. |
| Json.RoundTrip | client/src/hooks/use-chat.ts:139 | Parsing what was stringified gives back the object. |
| SseClient.SplitSound | client/src/hooks/use-chat.ts:132 | Joining the pieces with blank lines gives back the text. No piece contains a blank line, and no piece except the last ends with a line feed. |
| SseClient.SplitUnique | client/src/hooks/use-chat.ts:132 | Pieces of that shape are exactly what splitting their join returns. |
| SseClient.SplitAppend | client/src/hooks/use-chat.ts:130-133 | Splitting `a + c` keeps all complete pieces of `a` and splits its last piece together with `c`. |
| SseClient.ApplyFrame | client/src/hooks/use-chat.ts:136-151 | The transcript only grows. A frame that does not start with `data: `, or whose payload does not parse, leaves it unchanged. |
| SseClient.FrameRoundTrip | client/src/hooks/use-chat.ts:136-151 | A server frame adds exactly its event's text. Content appends verbatim, an image appends its markdown, and `done` and `error` add nothing. |
| SseClient.ContentBeforeImage | client/src/hooks/use-chat.ts:140-145 | In a payload holding both keys, the content is applied before the image markdown, even when `imageUrl` comes first in the object. |
| SseClient.Step | client/src/hooks/use-chat.ts:129-153 | After a read, the completed frames and the new buffer rejoin to the old buffer plus the chunk. The buffer holds no blank line. Earlier frames are kept, and only the new frames are applied, in order. |
| SseClient.RunClosedForm | client/src/hooks/use-chat.ts:125-154 | After any reads, the frames are all but the last piece of the split of everything received, and the buffer is that last piece. |
| SseClient.ChunkingInvariance | client/src/hooks/use-chat.ts:129-133 | Two ways of cutting the same text into reads give the same frames, buffer and transcript. |
| SseClient.TrailingPieceDiscarded | client/src/hooks/use-chat.ts:125-133 | Text after the last blank line is kept in the buffer and never applied. |
| SseClient.ConsumeStream | client/src/hooks/use-chat.ts:122-154 | The loop's transcript is the application of every complete frame of the concatenated stream. Its leftover is the final partial piece. |
| SseClient.FramedSplit | server/replit_integrations/chat/routes.ts:140 | Splitting single-line bodies, each followed by a blank line, gives back the bodies and an empty trailing piece. |
| SseClient.ClientReadsServer | client/src/hooks/use-chat.ts:125-154 | However the server's frames are cut into reads, the client ends with an empty buffer, exactly the server's frame bodies, and the events' transcript. |
| ChatHook.OptimisticAppend | client/src/hooks/use-chat.ts:97-106 | With no cached conversation nothing is created. Otherwise exactly one user message with the typed content and the clock as its id is appended. Existing messages, id and title are kept. |
| ChatHook.OptimisticAppendOrder | client/src/hooks/use-chat.ts:97-106 | Two sends keep the cached messages and append both contents in send order. |
| ChatHook.BodyCarriesContent | client/src/hooks/use-chat.ts:111 | The server's `req.body.content` is exactly the typed text. |
| ChatHook.UrlCarriesId | client/src/hooks/use-chat.ts:94 | The message URL `buildUrl` builds (as written) is the route with the id's decimal, and reading those digits back gives the id. |
| ChatHook.SendMessage | client/src/hooks/use-chat.ts:86-166 | A null or 0 conversation id is a no-op. Otherwise the request carries the content to `/api/conversations/<id>/messages`, with the id in decimal, for every id. The cache gets the optimistic message, streaming state is reset, both queries are invalidated in order, and the text shown is the stream's transcript. |
| ChatHook.ShowsServerStream | client/src/hooks/use-chat.ts:125-154 | For any chunking of the server's frames, the text shown is the events' transcript. |
| RoundTrip.ClientShowsStoredReply | client/src/hooks/use-chat.ts:125-154 | After a successful send, the client's transcript equals the assistant message last stored, with an empty buffer. |
| RoundTrip.ClientShowsPartialReply | server/replit_integrations/chat/routes.ts:181-190 | After a failure mid-stream, the client shows the reply as far as the server streamed it, although only the user message was stored. |
| RoundTrip.HookShowsStoredReply | client/src/hooks/use-chat.ts:86-166 | End to end: the stored conversation ends with the user's message as cached and then an assistant message equal to the text the hook showed. |
| Routes.BuildUrlAsWritten | shared/routes.ts:94-102 | As written: without params the path is returned unchanged, and when no value holds a `$` the result is the literal substitution of Routes.BuildUrl. |
| Routes.Expand | shared/routes.ts:98 | The replacement text as `replace` inserts it: a value without `$` is inserted verbatim, and `$&` inserts the matched placeholder. |
| Routes.ReplaceFirstAsWritten | shared/routes.ts:98 | As written: no occurrence leaves the text unchanged; otherwise the first occurrence is replaced by the expanded value, which is the literal replacement when the value holds no `$`. |
| Routes.EntryAsWritten | shared/routes.ts:97-99 | As written: a key whose `:key` does not occur leaves the URL unchanged, and a value without `$` gives the literal replacement of Routes.Entry. |
| Routes.SingleKeyAsWritten | shared/routes.ts:96-99 | As written, one key fills its template with the value's `$` patterns expanded against the text around the placeholder. |
| Routes.BuildUrl | shared/routes.ts:94-102 | The intended, literal substitution (the corrected half of the Findings row); it differs from line 98 for values holding `$`. Without params, the path is returned unchanged. |
| Routes.ReplaceFirst | shared/routes.ts:98 | The intended, literal replacement; it differs from line 98 for values holding `$` (see Findings). Only the first occurrence is replaced, and the length changes by the replacement's length minus the pattern's. No occurrence leaves the text unchanged. |
| Routes.Entry | shared/routes.ts:97-99 | The intended, literal replacement; it differs from line 98 for values holding `$` (see Findings). A key whose `:key` does not occur leaves the URL unchanged. Otherwise the first occurrence is replaced by `String(value)`, changing the length by the value's length minus the key's length minus one. |
| Routes.SubstituteSnoc | shared/routes.ts:96-100 | Substitution is sequential: each later key works on the URL the earlier ones rewrote. |
| Routes.UnmatchedKeysKeepPath | shared/routes.ts:97 | Keys without a placeholder in the path leave it unchanged. |
| Routes.SingleKey | shared/routes.ts:96-99 | One key replaces its placeholder in place. Matching is plain text, so `:id` also fills `:idx`, leaving the `x`. |
| Routes.ConversationUrls | shared/routes.ts:93-103 | The conversation and messages routes with a numeric id become the path with the id's decimal. |
| Routes.DollarValueKeepsPlaceholder | shared/routes.ts:98 | As written, the value `$&` puts `:id` back into the URL. The literal substitution gives `$&`. |
| Routes.AsWrittenAgrees | shared/routes.ts:96-100 | As written and literal substitution agree when no value holds a `$`. |
| Routes.NumericIdsAgree | shared/routes.ts:93-103 | Every call with numeric values behaves as intended. |
| Text.NatDecimalValue | server/replit_integrations/chat/routes.ts:100 | Reading the decimal digits of a natural number back gives the number. |

## Left out

- JSON is modelled only for what crosses the wire here: flat objects whose values are strings, booleans or null, with no white space between tokens. A `\u` escape that is half of a surrogate pair is outside the decoder, and numbers are not modelled.
- Bytes and `TextDecoder`: reads are modelled as strings, so a multi-byte character split across reads is not modelled.
- Asynchrony: the timing of React state updates, query invalidation, `AbortController`/`stopStream`, and concurrent sends to one conversation. The hook's state and call are given as one result.
- The Gemini SDK, model names, the system instruction and safety settings. The text stream is a given list of fragments, and the image call is given as a response or an exception. A fragment whose `chunk.text` is undefined is given as the empty string.
- The conversation history sent to the model is recorded as the stored messages. The role cast to `"user"` or `"model"` converts nothing, and what the model does with an `assistant` role is unknown.
- `chatStorage` and its database are not part of this model. They are modelled as a map from ids to conversations (owner, title, messages) that behaves as the routes assume. A throwing storage call changes nothing.
- Express plumbing: `setHeader`, the transport of `res.write`, `res.end`, and authentication. The user id is a parameter.
- `String(value)` in `buildUrl` is modelled for strings and integers only: numbers with a fractional part, and magnitudes of 1e21 or more (which JavaScript writes in exponent form), are not modelled.
- `parseInt` on route parameters: ids are integers. UrlCarriesId is stated only for ids of 1 or more, which are those the database assigns.
- ChatHook.UrlCarriesId: negative ids give `-` and digits, which is covered by Routes.ConversationUrls, not by the read-back.
- Routes.BuildUrl, Routes.ReplaceFirst and Routes.Entry substitute the value literally, which line 98 of shared/routes.ts does not do for values holding `$`; the as-written behaviour is Routes.BuildUrlAsWritten, and the two agree for every value without `$`, numeric ids included (see Findings).
- `Object.entries` order: parameters are given as a sequence in that order.
- ChatHook.SendMessage: console logging and the distinction between `AbortError` and other errors change nothing visible and are not modelled.
- SseClient.ContentBeforeImage is stated for an object holding exactly the two keys (`imageUrl` first). Other keys in such an object are ignored by the same lookup.
- The other hooks in the client hooks file (`useConversations`, `useConversation`, `useCreateConversation`, `useDeleteConversation`) and the UI components and pages: these are data fetching and rendering.

## Findings

| source | as written | input that shows it | evidently intended | confidence | as-written member | corrected member |
|---|---|---|---|---|---|---|
| shared/routes.ts:98 | `url.replace(":" + key, String(value))` expands `$$`, `$&`, `` $` `` and `$'` in the value (GetSubstitution, section 22.1.3.19.1 of ECMAScript 2023) | `buildUrl("/api/conversations/:id", {id: "$&"})` gives `/api/conversations/:id` | The value is substituted literally, giving `/api/conversations/$&` | not executed | Routes.DollarValueKeepsPlaceholder | Routes.SingleKey |
