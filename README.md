# Security-headers edge function, modelled in Dafny

The repository's edge function runs on every outgoing HTTP response of a
CDN distribution. Its `handler(event)` takes `event.response`, assigns six
fixed security headers into the response's header table (one property
assignment per header, each storing a `{ value: ... }` record), and returns
the same response object.

`security_headers.dfy` (module `SecurityHeaders`) models it:

- `HeaderValue` is the `{ value: ... }` record; a header table (`Headers`) is a
  map from the exact, case-sensitive header name to such a record.
- The six names and values are constants; `FixedAssignments` pairs them as
  the six assignments in the order the handler makes them, and `Fixed()` is
  the fixed table built from those assignments.
- `Apply(h)` is the handler's effect on a table: `h` overridden by `Fixed()`.
- `AssignAll(h, es)` is the statement-by-statement reading: perform the
  assignments `es` one after another. Lemmas connect the two readings, in the
  source order and in any other order.
- `Response` is a class whose `headers` field the handler reassigns in place;
  `statusCode` stands for the response's other fields, which the handler
  never touches. `Event` holds the `response`.
- `Handler(event)` performs the six assignments on `event.response.headers`, may
  modify only that field, and returns `event.response` itself.

HTTP header names are case-insensitive, but the handler assigns exact
lower-case property names (functions/security-headers.js:6-26), so an
existing `X-Frame-Options` entry is left as is next to the new
`x-frame-options` entry. The model uses exact string keys.

## Model

| member | source | states |
|---|---|---|
| `SecurityHeaders.Fixed` | functions/security-headers.js:6-28 | the fixed table has exactly the six header names, which are pairwise distinct (six entries) |
| `SecurityHeaders.Apply` | functions/security-headers.js:6-28 | after the handler the keys are the old keys plus the six names; each of the six names holds its fixed value whatever was there before; every other key keeps its old value |
| `SecurityHeaders.AssignAllIsOverride` | functions/security-headers.js:6-28 | any series of property assignments performed one by one equals the old table overridden by what the series writes, later writes winning |
| `SecurityHeaders.FixedAssignmentsAgree` | functions/security-headers.js:6-28 | each of the handler's six assignments stores the fixed table's value for its name, and together they write all six names |
| `SecurityHeaders.HandlerBodyIsApply` | functions/security-headers.js:6-28 | the six assignments in source order end in the old table overridden by the fixed table |
| `SecurityHeaders.AnyOrderIsApply` | functions/security-headers.js:6-28 | because the names are distinct, the six assignments in any order, even with some repeated, end in the same table as the handler's order |
| `SecurityHeaders.SixUpdatesAreApply` | functions/security-headers.js:6-28 | the handler's six successive updates of the table are exactly the merge with the fixed table |
| `SecurityHeaders.SecuredIffFixedPoint` | functions/security-headers.js:6-28 | after the handler all six names carry their fixed values; the handler leaves a table unchanged exactly when it already carries them |
| `SecurityHeaders.ApplyIdempotent` | functions/security-headers.js:6-28 | running the handler a second time leaves the header table unchanged |
| `SecurityHeaders.ApplySize` | functions/security-headers.js:3-28 | no header is removed and at most six are added: the table grows by exactly the number of fixed names it lacked |
| `SecurityHeaders.ApplyEmpty` | functions/security-headers.js:6-28 | an empty header table comes out with exactly the six fixed entries |
| `SecurityHeaders.ApplyVideoResponse` | functions/security-headers.js:14-16 | a table with `content-type: video/mp4` and `x-frame-options: SAMEORIGIN` comes out with `content-type` untouched, `x-frame-options: DENY` and the other five fixed entries, seven in all |
| `SecurityHeaders.Handler` | functions/security-headers.js:1-31 | the returned object is `event.response` itself; its headers become the old headers overridden by the fixed table (each fixed name with its exact value, every other key present and valued exactly as before); no other field of the response or the event changes; an already secured table is left unchanged |

## Left out

- `app/script.js`: a browser diagnostic made of two network requests and console output; it has no logic of its own.
- The platform's invocation of the handler and the rest of the event: only `event.response` and its header table are modelled; the response's other fields are represented by one `statusCode` field.
- A response without a header table: the code defines no behaviour for it, so the model assumes the table exists.
- The order of entries in the header table: a JavaScript object keeps insertion order, a Dafny map has none, so where new headers land in the emitted order is not captured.
- The meaning of the header values: they are opaque strings (no HSTS or Content-Security-Policy parsing).
- Case-insensitive header-name matching: the code does none, and neither does the model.
- Aliasing of the header table: the handler keeps a reference to `response.headers` and changes that object in place; the model holds the table as a map value and replaces the `headers` field, so what another holder of the same header object would see is not captured.
- Object identity of the `{ value: ... }` records: the model stores them as values, so aliasing of a record shared with other code is not captured.
