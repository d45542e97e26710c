# Live-house site: verified model of its event logic

The site is a small venue's web page: a schedule of live shows that an
administrator can add to, edit and delete; an image upload for flyers; and an
About page that teases the next show. This project models, in Dafny, the parts
of it that make decisions:

- **Presentation** (`Schedule.tsx`): the door-price fallback (`getDoorPrice`),
  the yen formatting (`formatCurrency`) and the price inputs that normalise
  what is typed, the weekday colour (`getDayColor`) and the 96 quarter-hour
  slots (`TIME_OPTIONS`). Digit extraction, `parseInt` on a run of digits and
  `toLocaleString`'s thousands grouping are modelled exactly on naturals in
  module `Numerals`.
- **ScheduleUi** (`Schedule.tsx`): the `Schedule` component's admin state is
  a class with these fields: login modal, password field, admin flag, its
  `localStorage` copy, add form, edit form and form contents. Each event
  handler is a method. The form's save step is a function that yields the
  HTTP request it sends.
- **Server** (`server.ts`): the `events` table is a class holding a map
  from id to row and the AUTOINCREMENT counter. It has list, create, update,
  delete and the start-up seed with the semantics of the SQL statements.
- **Upload** (`server.ts`): multer's file filter, its 5 MB limit and the
  reply of the upload endpoint, as one pure function.
- **About** (`About.tsx`): the choice of the next show from the fetched list.
- Supporting modules: `Optional` (the option type), `StringOrder` (the
  code-point order of SQLite's BINARY collation, which `ORDER BY date`
  uses), `EventModel` (the row of `types.ts`/the table, and the partial
  record the form edits) and `Dates` (ISO date strings as the day number
  YYYYMMDD).

Where the TypeScript interface and the code disagree, the model follows the
code. `types.ts` declares `description`, `openTime`, `startTime` and
`ticketPrice` as required strings, but the table allows NULL in every column
except `date` and `title`. Both create and update store the body's value
unchanged, so NULL reaches the client. In the model, every column other than
`id`, `date` and `title` is therefore an `Option<string>`.

Environment inputs are parameters of the model:

- today's date;
- the seed dates;
- whether a date is a public holiday, and its weekday;
- the random stem of an uploaded file's name;
- the reply of each `fetch`, which arrives as a separate step (`ReceiveUpload`, `SaveResolved`);
- the `localStorage` value at start-up.

## Model

| member | source | states |
|---|---|---|
| Numerals.DigitsOf | Schedule.tsx:12 | `replace(/[^0-9]/g, '')` leaves only digits, never lengthens the string, and leaves nothing exactly when the string holds no digit |
| Numerals.ParseInt | Schedule.tsx:12-13 | `parseInt` of the digit run is NaN exactly when the run is empty; otherwise it is the run's decimal value, which is below 10 to the run's length |
| Numerals.Grouped | Schedule.tsx:14 | `toLocaleString` of n has commas exactly every three digits from the right, is "0" for n = 0 and starts with no '0' otherwise, and its digits read back with the commas removed are n itself |
| Numerals.DigitStringOrder | server.ts:121 | on digit strings of equal length, string order is numeric order (both directions) |
| Presentation.YenAmount | Schedule.tsx:40 | `¥${n.toLocaleString()}` is '¥' followed by a well-grouped numeral whose digits read back as n, with no leading '0' except for n = 0, which gives "¥0" |
| Presentation.FormatCurrency | Schedule.tsx:37-41 | an input without digits is returned unchanged; otherwise the result is the yen amount of the number that all of the input's digits form |
| Presentation.FormatCurrencyReadsBack | Schedule.tsx:37-41 | a formatted amount starts with '¥', is well grouped, and its digits read as the input's number |
| Presentation.FormatCurrencyIdempotent | Schedule.tsx:37-41 | formatting a formatted value changes nothing, for every input |
| Presentation.NormalisePriceInput | Schedule.tsx:525-536 | the Adv./Door price input handlers store exactly what `formatCurrency` returns on the typed value |
| Presentation.DoorPrice | Schedule.tsx:8-15 | a non-empty door price is shown unchanged; failing that, an empty or digit-free ticket price gives "---", and any other gives a well-grouped yen amount without leading zero whose digits read as the ticket price's number plus 500 |
| Presentation.DoorPriceFallbackIsFormatted | Schedule.tsx:8-15 | without a door price of its own, the shown door price is a fixed point of `formatCurrency` |
| Presentation.DoorPriceOfFormatted | Schedule.tsx:10-14 | a ticket price written by `formatCurrency` for n gives the door price it would write for n + 500 |
| Presentation.YenThousands | Schedule.tsx:40 | for 1,000 to 9,900 yen in whole hundreds, the amount is written "¥k,h00" |
| Presentation.DoorPriceExample | Schedule.tsx:10-14 | "¥2,000" with no door price yields "¥2,500" |
| Presentation.DayColor | Schedule.tsx:17-29 | red exactly for a holiday or a Sunday, blue exactly for a non-holiday Saturday, zinc otherwise; a holiday wins over Saturday |
| Presentation.TimeOptions | Schedule.tsx:31-35 | there are exactly 96 slots, slot i being the i-th `TimeOption` |
| Presentation.TimeOption | Schedule.tsx:32-34 | slot i is "HH:MM", both parts two digits, with HH = i div 4 and MM = (i mod 4)·15 |
| Presentation.TimeOptionsEnds | Schedule.tsx:31-35 | the first slot is "00:00" and the last "23:45" |
| Presentation.TimeOptionsIncreasing | Schedule.tsx:31-35 | the slots are strictly increasing in string order, hence distinct |
| ScheduleUi.SaveRequest | Schedule.tsx:102-129 | nothing is sent exactly when date or title is not truthy (`Truthy`: present and non-empty); otherwise the body is the form unchanged, with PUT to `editingId` exactly when it is truthy (present and non-zero) and POST otherwise |
| ScheduleUi.SavedFormMeetsConstraints | Schedule.tsx:103-106 | every body the form sends satisfies the table's NOT NULL constraints |
| ScheduleUi.NewEventFormNeedsTitle | Schedule.tsx:139-149 | a freshly opened add form cannot be saved (empty title); with a non-empty date and title it is POSTed as is |
| ScheduleUi.NewEventFormDefaults | Schedule.tsx:138-149 | `NewEventForm`'s defaults are controls' values: the open and start times are the slots 18:00 and 19:00 of the time selector, and the ticket price is a fixed point of `formatCurrency` |
| ScheduleUi.YenLiterals | server.ts:88-90 | the seed's and the add form's prices "¥2,000", "¥2,500", "¥3,000" and "¥3,500" are `toLocaleString`'s amounts of 2000, 2500, 3000 and 3500 |
| ScheduleUi.SeedDoorPricesFollowFallback | server.ts:88-90 | `SeedEvents` are the three demonstration events, and each one's stored door price is what the door-price fallback would show from its ticket price |
| ScheduleUi.FollowsInHundreds | Schedule.tsx:8-15 | a ticket price "¥k,h00" with a door price 500 yen above it, both as `toLocaleString` writes them, agrees with the fallback |
| ScheduleUi.WithUploadedImage | Schedule.tsx:567-591 | a stored upload's URL becomes the form's `imageUrl`; a rejected upload leaves the form unchanged |
| ScheduleUi.AcceptedUploadFillsForm | Schedule.tsx:567-591 | every file the server accepts ends up in the form as its `/uploads/` URL |
| ScheduleUi.Schedule.constructor | Schedule.tsx:45-60 | initially no form or modal is open and the form is empty; admin exactly when `localStorage` holds "true" |
| ScheduleUi.Schedule.OpenLoginModal | Schedule.tsx:175-180 | opens the modal and changes nothing else |
| ScheduleUi.Schedule.CloseLoginModal | Schedule.tsx:316-341 | closes the modal and changes nothing else |
| ScheduleUi.Schedule.SetLoginPassword | Schedule.tsx:332 | sets the password field and changes nothing else |
| ScheduleUi.Schedule.SubmitLogin | Schedule.tsx:72-82 | accepted exactly for the password "admin", which makes the user admin, stores "true", closes the modal and clears the field; a wrong password changes no field |
| ScheduleUi.Schedule.Logout | Schedule.tsx:84-89 | not admin, stored flag removed, both forms closed; form contents, modal and password kept |
| ScheduleUi.Schedule.StartAdd | Schedule.tsx:138-149 | opens the add form with its defaults and closes the edit form |
| ScheduleUi.Schedule.StartEdit | Schedule.tsx:131-136 | opens the edit form on a copy of the event and closes the add form |
| ScheduleUi.Schedule.CancelAdd | Schedule.tsx:198 | closes the add form and changes nothing else |
| ScheduleUi.Schedule.CancelEdit | Schedule.tsx:212 | closes the edit form and changes nothing else |
| ScheduleUi.Schedule.ChangeForm | Schedule.tsx:455-599 | a field edit replaces the form and changes nothing else |
| ScheduleUi.Schedule.ChangeTicketPrice | Schedule.tsx:525-536 | the ticket price becomes `formatCurrency` of the typed value; no other field changes |
| ScheduleUi.Schedule.ChangeDoorPrice | Schedule.tsx:546-554 | the door price becomes `formatCurrency` of the typed value; no other field changes |
| ScheduleUi.Schedule.ReceiveUpload | Schedule.tsx:565-591 | a stored upload with a URL makes the form the one captured when the file was chosen, with that `imageUrl`; a rejected upload changes nothing; no other field changes |
| ScheduleUi.Schedule.Save | Schedule.tsx:102-121 | the request sent is `SaveRequest` of the form and `editingId` at the time of saving, and nothing changes yet |
| ScheduleUi.Schedule.SaveResolved | Schedule.tsx:122-128 | once the request resolved, both forms are closed and the form is empty, whatever was open by then; nothing else changes, and the add and edit forms are not open together |
| Server.OrEmpty | server.ts:136 | `x \|\| ''` keeps a present value and turns an absent one into '' |
| Server.RowFromBody | server.ts:131-136 | the written row is the body field by field, with '' for missing `artists`, `doorPrice` and `imageUrl` |
| Server.WithId | server.ts:137 | `{id, ...body}`: the id is added unless the body carries its own |
| Server.InsertByDate | server.ts:121 | inserting into a date-sorted list keeps it sorted, and the result has exactly one more copy of the row |
| Server.ListStep | server.ts:121-122 | one step of listing keeps every listed element a stored row and adds the next row |
| Server.EventStore.constructor | server.ts:44-58 | a new table is empty and its sequence is at 0 |
| Server.EventStore.Insert | server.ts:133-137 | a new row gets the id one past the sequence, an id never issued before, which joins the issued ids |
| Server.EventStore.InsertThree | server.ts:88-90 | three inserts into an empty table store the three rows under the next three ids, all newly issued |
| Server.EventStore.SeedIfEmpty | server.ts:75-91 | into an empty table, the three demo events with consecutive fresh ids; a non-empty table is untouched |
| Server.EventStore.List | server.ts:119-123 | every stored row exactly once, each as stored, sorted non-decreasingly by the date string |
| Server.EventStore.Create | server.ts:129-141 | with date and title: one new row under a newly issued id above every earlier one, other rows untouched, reply is the body plus the id; without them: the create error and no change |
| Server.EventStore.Update | server.ts:143-157 | a matched row is fully overwritten from the body and the others are untouched; an unknown id changes nothing and still succeeds; a matched row without date or title: the update error and no change |
| Server.EventStore.Delete | server.ts:159-168 | exactly that id's row is gone, the rest untouched; success even for an unknown id |
| Server.RowFromBodyRoundTrip | server.ts:152 | saving an unchanged event rewrites the same row exactly when its `artists`, `doorPrice` and `imageUrl` are not NULL |
| Upload.ContainsNeedsRoom | server.ts:32-34 | a pattern occurs only in a string at least as long as it |
| Upload.Extname | server.ts:34 | `path.extname` is empty or a proper suffix of the name that starts with its only '.'; it is non-empty exactly when the last '.' is not the first character and the name is not ".." |
| Upload.ExtnameOf | server.ts:34 | the extension of "stem.ext", with a non-empty stem and no '.' in ext, is ".ext" |
| Upload.AsciiLower | server.ts:34 | `toLowerCase()` restricted to ASCII: it keeps the length, lowers A-Z to the same letter and keeps every other character |
| Upload.ContainsAt | server.ts:32-34 | a pattern found at some position of the string is matched by the unanchored test |
| Upload.PatternMatchesAnywhere | server.ts:32-34 | the unanchored pattern (`IsImageType`) matches wherever it occurs, so ".apng" or ".pngx" pass as well |
| Upload.NoImageTypeIn | server.ts:32-33 | a type without 'p', 'j' or 'g' matches none of the patterns |
| Upload.FilterIgnoresCase | server.ts:31-40 | `FileFilter` accepts "Flyer.PNG" declared as "image/png": the extension is lower-cased first |
| Upload.FilterRejections | server.ts:31-40 | `FileFilter` refuses a name that is only an extension, a name without a dot, and a non-image declared type |
| Upload.AcceptedNameHasExtension | server.ts:31-40 | any name the filter accepts has a real extension of at least four characters, ending the name |
| Upload.HandleUpload | server.ts:103-116 | status 400 on every rejection, "No file uploaded" when there is no file or its name is empty, the filter's message when it refuses; stored exactly when field, type, extension and size (at most 5·1024·1024) pass, under "/uploads/" + stem + extension |
| Upload.StoredUrlKeepsExtension | server.ts:22-24 | a stored file's URL starts with "/uploads/" and ends with the original extension |
| Upload.SizeLimitBoundary | server.ts:30 | the limit is inclusive: exactly 5 MB passes, one byte more gives "File too large" |
| Dates.CalendarDay | About.tsx:14 | the model counts as a date only a YYYY-MM-DD string with month 1-12 and day 1-31, which is what the date input and the seed write, and reads it as the number YYYY·10000 + MM·100 + DD |
| Dates.IsoOrderIsDayOrder | server.ts:121 | on ISO dates, string order is chronological order (both directions) |
| About.NextShow | About.tsx:14 | none exactly when no event is upcoming; otherwise an upcoming event such that every event before it is past |
| About.UpcomingIsStringOrder | About.tsx:14 | `Upcoming`: with today's ISO date, an event is upcoming exactly when its date names a day and sorts after or equal to today's in string order |
| About.NextEventAfterLoad | About.tsx:8-17 | stays null when the fetch fails, else the first upcoming event or null |
| About.NextShowIsEarliest | About.tsx:11-15 | on the date-sorted list the events endpoint returns, the first upcoming event has the earliest date of all upcoming events |

## Left out

- JSX rendering, animation and styling, the event detail popup (`selectedEvent`), `App.tsx` routing, and the static pages (`Access.tsx`, `Equipment.tsx`, `Contact.tsx`, whose form is a simulated timer chain). None of them decides anything.
- `handleDelete` in the component: its `confirm` dialog and the follow-up refresh are browser effects, and the request itself is `Server.EventStore.Delete`.
- `fetchEvents` and the `events` list in the component: they only copy the server's list (`Server.EventStore.List`).
- HTTP transport, express routing, static file serving, Vite, `PORT`, and multer's disk writes.
- The `ALTER TABLE` migrations (server.ts:61-72): they only add columns that the modelled table already has.
- SQLite failures other than the NOT NULL constraint, such as a locked or unwritable database file. The "Failed to fetch events" and "Failed to delete event" replies are therefore never produced.
- The `:id` path parameter as a string: the model takes an integer id. A non-numeric id matches no row, as an unknown id does.
- JSON's distinction between an absent field and `null`: both are `None`.
- `Date.now()` and `Math.random()` in the upload filename: the model takes the stem as a parameter.
- `path.extname` on names containing '/': multer passes the client's file name, which is taken to be a plain name.
- date-fns, `new Date` parsing and the `japanese-holidays` library: the holiday test and the weekday are inputs of `DayColor`.
- Dates as instants: a date is the day number YYYYMMDD. Validity is a month 1-12 and a day 1-31, without month lengths or leap years.
- The time zone gap in About: `new Date("YYYY-MM-DD")` is UTC midnight while today's midnight is local. The seed dates also come from `toISOString` in UTC, and are parameters here.
- `toLocaleString`: the ja-JP/en-US comma grouping is assumed.
- `parseInt` yields a double that loses precision above 2^53. The model uses unbounded naturals.
- Server.EventStore.List: rows with equal dates come out in an unspecified order, as SQLite leaves it. The contract does not fix their relative order.
- ScheduleUi.Schedule.StartAdd: only the component's rendering stops a non-administrator from opening the add form, so the preservation of `FormsNeedAdmin` is stated for an administrator caller. The same holds for ScheduleUi.Schedule.StartEdit.
- ScheduleUi.Schedule.Save: the refetch after saving and the `alert` on a missing date or title are not modelled. A rejected `fetch` is the case where SaveResolved is never called; the status of the reply is not examined, as in the code.
- ScheduleUi.Schedule.ReceiveUpload and ScheduleUi.Schedule.SaveResolved: other handlers may run between sending a request and its reply. The model makes no claim about which interleavings the page allows; each method states what happens to the state found when the reply arrives.
- Upload.AsciiLower: only A-Z are lowered. JavaScript's `toLowerCase()` also lowers non-ASCII capitals ('Ä' becomes 'ä'), and "İ" (U+0130) becomes the two characters 'i' and U+0307. `FileFilter` still gives the same answer. The only non-ASCII characters whose lower case contains an ASCII letter are U+0130, which gives 'i', and the Kelvin sign U+212A, which gives 'k'. 'k' occurs in none of "jpeg", "jpg", "png" and "gif". The 'i' is always followed by U+0307, so it cannot be followed by the 'f' of "gif". This argument is not proved in the model.
- Dates.CalendarDay: `new Date` in the browser accepts more strings than YYYY-MM-DD. Examples are "2099/01/01", "2099-01-01T19:00" and "Jan 1 2099". It also rolls an impossible day such as "2023-02-30" over into the next month. The table stores any non-NULL date text (server.ts:131-136), so an event written through the API in another form is shown by About.tsx:14, while `About.NextShow` treats its date as naming no day.
