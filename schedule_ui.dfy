/** The admin side of the `Schedule` component (Schedule.tsx): the login
    modal, the add and edit forms and what saving the form sends to the
    server. React's state hooks become the fields of a class; `fetch`,
    `alert` and `localStorage` become parameters and a field. */
module ScheduleUi {
  import opened Optional
  import opened EventModel
  import opened Presentation
  import opened Upload
  import opened Numerals
  import Server

  /** The password the login form compares against. */
  const AdminPassword := "admin"

  /** The request `handleSave` sends: PUT to `/api/events/:id` or POST to
      `/api/events`, with the form as JSON body. */
  datatype Request = Put(id: int, body: Draft) | Post(body: Draft)

  /** The form `startAdd` opens: today's date, an empty title and
      description, doors at 18:00, start at 19:00 and a 2,000 yen ticket. */
  function NewEventForm(today: string): Draft {
    EmptyDraft.(date := Some(today), title := Some(""), description := Some(""),
                openTime := Some("18:00"), startTime := Some("19:00"), ticketPrice := Some("¥2,000"))
  }

  /** What `handleSave` does with the form: nothing when the date or the
      title is missing or empty, a PUT when `editingId` is truthy (present
      and not 0), a POST otherwise. */
  function SaveRequest(form: Draft, editingId: Option<int>): (r: Option<Request>)
    ensures r.None? <==> !Truthy(form.date) || !Truthy(form.title)
    ensures r.Some? ==> r.value.body == form
    ensures r.Some? ==> (r.value.Put? <==> editingId.Some? && editingId.value != 0)
    ensures r.Some? && r.value.Put? ==> r.value.id == editingId.value
  {
    if !Truthy(form.date) || !Truthy(form.title) then None
    else if editingId.Some? && editingId.value != 0 then Some(Put(editingId.value, form))
    else Some(Post(form))
  }

  /** A body the form lets through always meets the table's NOT NULL
      constraints, so the server's constraint failure is unreachable from
      this form. */
  lemma SavedFormMeetsConstraints(form: Draft, editingId: Option<int>)
    requires SaveRequest(form, editingId).Some?
    ensures Server.HasRequired(SaveRequest(form, editingId).value.body)
  {
  }

  /** A fresh add form cannot be saved until a title is typed; once the
      date and the title are non-empty it is sent as a POST. */
  lemma NewEventFormNeedsTitle(today: string, title: string)
    ensures SaveRequest(NewEventForm(today), None).None?
    ensures today != "" && title != "" ==>
      SaveRequest(NewEventForm(today).(title := Some(title)), None) ==
        Some(Post(NewEventForm(today).(title := Some(title))))
  {
  }

  /** The add form's defaults are what its controls produce: both times
      are entries of the time selector and the ticket price is already in
      the form the price input writes. */
  lemma NewEventFormDefaults(today: string)
    ensures NewEventForm(today).openTime == Some(TimeOptions()[72])
    ensures NewEventForm(today).startTime == Some(TimeOptions()[76])
    ensures var price := NewEventForm(today).ticketPrice.value;
      FormatCurrency(price) == price
  {
    DefaultSlots();
    YenLiterals();
  }

  /** The advance and door prices of the add form and the demonstration
      events, as `toLocaleString` writes them. */
  lemma YenLiterals()
    ensures YenAmount(2000) == "¥2,000" && YenAmount(2500) == "¥2,500"
    ensures YenAmount(3000) == "¥3,000" && YenAmount(3500) == "¥3,500"
    ensures FormatCurrency("¥2,000") == "¥2,000"
  {
    YenThousands(2, 0);
    YenThousands(2, 5);
    YenThousands(3, 0);
    YenThousands(3, 5);
  }

  lemma DefaultSlots()
    ensures TimeOptions()[72] == "18:00" && TimeOptions()[76] == "19:00"
  {
    Pad2Facts(18);
    Pad2Facts(19);
    Pad2Facts(0);
  }

  /** The demonstration events' door prices are exactly what the door-price
      fallback would show without them: 500 yen above the advance price. */
  lemma SeedDoorPricesFollowFallback(today: string, tomorrow: string, nextWeek: string)
    ensures Server.SeedEvents(today, tomorrow, nextWeek) ==
      [Server.NeonNights(today), Server.MetalThunder(tomorrow), Server.JazzAndGin(nextWeek)]
    ensures FollowsFallback(Server.NeonNights(today))
    ensures FollowsFallback(Server.MetalThunder(tomorrow))
    ensures FollowsFallback(Server.JazzAndGin(nextWeek))
  {
    NeonNightsFollows(today);
    MetalThunderFollows(tomorrow);
    JazzAndGinFollows(nextWeek);
  }

  lemma NeonNightsFollows(date: string)
    ensures FollowsFallback(Server.NeonNights(date))
  {
    FollowsInHundreds(Server.NeonNights(date), 2, 5, 3, 0);
  }

  lemma MetalThunderFollows(date: string)
    ensures FollowsFallback(Server.MetalThunder(date))
  {
    FollowsInHundreds(Server.MetalThunder(date), 3, 0, 3, 5);
  }

  lemma JazzAndGinFollows(date: string)
    ensures FollowsFallback(Server.JazzAndGin(date))
  {
    FollowsInHundreds(Server.JazzAndGin(date), 2, 0, 2, 5);
  }

  /** The stored door price is the one the fallback computes from the
      ticket price alone. */
  predicate FollowsFallback(e: Event) {
    e.doorPrice.Some? && DoorPrice(e.(doorPrice := None)) == e.doorPrice.value
  }

  /** A ticket price of k,h00 yen with a door price 500 yen above it. */
  lemma FollowsInHundreds(e: Event, k: nat, h: nat, k': nat, h': nat)
    requires 1 <= k <= 9 && h <= 9 && 1 <= k' <= 9 && h' <= 9
    requires k' * 1000 + h' * 100 == k * 1000 + h * 100 + 500
    requires e.ticketPrice == Some(['¥', DigitChar(k), ',', DigitChar(h), '0', '0'])
    requires e.doorPrice == Some(['¥', DigitChar(k'), ',', DigitChar(h'), '0', '0'])
    ensures FollowsFallback(e)
  {
    YenThousands(k, h);
    YenThousands(k', h');
    assert e.ticketPrice.value == YenAmount(k * 1000 + h * 100);
    assert e.doorPrice.value == YenAmount(k * 1000 + h * 100 + 500);
    DoorPriceOfFormatted(e.(doorPrice := None), k * 1000 + h * 100);
  }

  /** The reply of the image upload fills in `imageUrl`; a rejected
      upload (the `alert` path) leaves the form as it was. */
  function WithUploadedImage(form: Draft, reply: UploadReply): (r: Draft)
    ensures reply.Stored? && reply.imageUrl != "" ==> r == form.(imageUrl := Some(reply.imageUrl))
    ensures reply.Rejected? ==> r == form
  {
    if reply.Stored? && reply.imageUrl != "" then form.(imageUrl := Some(reply.imageUrl)) else form
  }

  /** Every image the server accepts is put into the form, under its
      `/uploads/` URL. */
  lemma AcceptedUploadFillsForm(form: Draft, file: FilePart, stem: string)
    requires HandleUpload(Some(file), stem).Stored?
    ensures WithUploadedImage(form, HandleUpload(Some(file), stem)).imageUrl ==
      Some("/uploads/" + stem + Extname(file.originalName))
  {
    var url := HandleUpload(Some(file), stem).imageUrl;
    assert url[0] == '/';
  }

  class Schedule {
    var isAdmin: bool
    var editingId: Option<int>
    var isAdding: bool
    var formData: Draft
    var showLoginModal: bool
    var loginPassword: string
    /** The `isAdmin` entry of `localStorage`: `Some("true")` after a login,
        `None` after a logout. */
    var storedAdmin: Option<string>

    /** The add form and an edit form are never open at once. */
    predicate FormsExclusive()
      reads this
    {
      !(isAdding && editingId.Some?)
    }

    /** A form is open only for an administrator. */
    predicate FormsNeedAdmin()
      reads this
    {
      (isAdding || editingId.Some?) ==> isAdmin
    }

    /** The initial state and the mount effect: administrator exactly when
        `localStorage` holds the string "true". */
    constructor (stored: Option<string>)
      ensures isAdmin == (stored == Some("true"))
      ensures editingId.None? && !isAdding && formData == EmptyDraft
      ensures !showLoginModal && loginPassword == "" && storedAdmin == stored
      ensures FormsExclusive() && FormsNeedAdmin()
    {
      isAdmin := stored == Some("true");
      editingId := None;
      isAdding := false;
      formData := EmptyDraft;
      showLoginModal := false;
      loginPassword := "";
      storedAdmin := stored;
    }

    /** The "Admin Login" button. */
    method OpenLoginModal()
      modifies this
      ensures showLoginModal
      ensures isAdmin == old(isAdmin) && editingId == old(editingId) && isAdding == old(isAdding)
      ensures formData == old(formData) && loginPassword == old(loginPassword) && storedAdmin == old(storedAdmin)
      ensures old(FormsExclusive()) ==> FormsExclusive()
      ensures old(FormsNeedAdmin()) ==> FormsNeedAdmin()
    {
      showLoginModal := true;
    }

    /** The modal's backdrop and its Cancel button. */
    method CloseLoginModal()
      modifies this
      ensures !showLoginModal
      ensures isAdmin == old(isAdmin) && editingId == old(editingId) && isAdding == old(isAdding)
      ensures formData == old(formData) && loginPassword == old(loginPassword) && storedAdmin == old(storedAdmin)
      ensures old(FormsExclusive()) ==> FormsExclusive()
      ensures old(FormsNeedAdmin()) ==> FormsNeedAdmin()
    {
      showLoginModal := false;
    }

    /** Typing in the password field. */
    method SetLoginPassword(password: string)
      modifies this
      ensures loginPassword == password
      ensures isAdmin == old(isAdmin) && editingId == old(editingId) && isAdding == old(isAdding)
      ensures formData == old(formData) && showLoginModal == old(showLoginModal) && storedAdmin == old(storedAdmin)
      ensures old(FormsExclusive()) ==> FormsExclusive()
      ensures old(FormsNeedAdmin()) ==> FormsNeedAdmin()
    {
      loginPassword := password;
    }

    /** `handleLoginSubmit`: the right password makes the user an
        administrator, remembers it, closes the modal and clears the field;
        a wrong one (the `alert` path) changes nothing. */
    method SubmitLogin() returns (accepted: bool)
      modifies this
      ensures accepted <==> old(loginPassword) == AdminPassword
      ensures accepted ==> isAdmin && storedAdmin == Some("true") && !showLoginModal && loginPassword == ""
      ensures !accepted ==>
        isAdmin == old(isAdmin) && storedAdmin == old(storedAdmin) &&
        showLoginModal == old(showLoginModal) && loginPassword == old(loginPassword)
      ensures editingId == old(editingId) && isAdding == old(isAdding) && formData == old(formData)
      ensures old(FormsExclusive()) ==> FormsExclusive()
      ensures old(FormsNeedAdmin()) ==> FormsNeedAdmin()
    {
      accepted := loginPassword == AdminPassword;
      if accepted {
        isAdmin := true;
        storedAdmin := Some("true");
        showLoginModal := false;
        loginPassword := "";
      }
    }

    /** `handleLogout`: forgets the login and closes both forms; the form's
        contents stay as they were. */
    method Logout()
      modifies this
      ensures !isAdmin && storedAdmin.None? && !isAdding && editingId.None?
      ensures formData == old(formData) && showLoginModal == old(showLoginModal) && loginPassword == old(loginPassword)
      ensures FormsExclusive() && FormsNeedAdmin()
    {
      isAdmin := false;
      storedAdmin := None;
      isAdding := false;
      editingId := None;
    }

    /** `startAdd` (the "Add Event" button, shown to administrators):
        opens the add form with its defaults and closes any edit form. */
    method StartAdd(today: string)
      modifies this
      ensures isAdding && editingId.None? && formData == NewEventForm(today)
      ensures isAdmin == old(isAdmin) && showLoginModal == old(showLoginModal)
      ensures loginPassword == old(loginPassword) && storedAdmin == old(storedAdmin)
      ensures FormsExclusive()
      ensures old(isAdmin) ==> FormsNeedAdmin()
    {
      isAdding := true;
      editingId := None;
      formData := NewEventForm(today);
    }

    /** `startEdit` (the pencil button, shown to administrators): opens the
        edit form on a copy of the event and closes the add form. */
    method StartEdit(e: Event)
      modifies this
      ensures editingId == Some(e.id) && formData == DraftOf(e) && !isAdding
      ensures isAdmin == old(isAdmin) && showLoginModal == old(showLoginModal)
      ensures loginPassword == old(loginPassword) && storedAdmin == old(storedAdmin)
      ensures FormsExclusive()
      ensures old(isAdmin) ==> FormsNeedAdmin()
    {
      editingId := Some(e.id);
      formData := DraftOf(e);
      isAdding := false;
    }

    /** The add form's Cancel button. */
    method CancelAdd()
      modifies this
      ensures !isAdding
      ensures isAdmin == old(isAdmin) && editingId == old(editingId) && formData == old(formData)
      ensures showLoginModal == old(showLoginModal) && loginPassword == old(loginPassword) && storedAdmin == old(storedAdmin)
      ensures FormsExclusive()
      ensures old(FormsNeedAdmin()) ==> FormsNeedAdmin()
    {
      isAdding := false;
    }

    /** The edit form's Cancel button. */
    method CancelEdit()
      modifies this
      ensures editingId.None?
      ensures isAdmin == old(isAdmin) && isAdding == old(isAdding) && formData == old(formData)
      ensures showLoginModal == old(showLoginModal) && loginPassword == old(loginPassword) && storedAdmin == old(storedAdmin)
      ensures FormsExclusive()
      ensures old(FormsNeedAdmin()) ==> FormsNeedAdmin()
    {
      editingId := None;
    }

    /** A form field's `onChange`: the form becomes `{...data, field: value}`,
        given here as the whole new form. */
    method ChangeForm(form: Draft)
      modifies this
      ensures formData == form
      ensures isAdmin == old(isAdmin) && editingId == old(editingId) && isAdding == old(isAdding)
      ensures showLoginModal == old(showLoginModal) && loginPassword == old(loginPassword) && storedAdmin == old(storedAdmin)
      ensures old(FormsExclusive()) ==> FormsExclusive()
      ensures old(FormsNeedAdmin()) ==> FormsNeedAdmin()
    {
      formData := form;
    }

    /** Typing in the Adv. Price field: a value with digits is rewritten to
        its yen amount, as `formatCurrency` would. */
    method ChangeTicketPrice(typed: string)
      modifies this
      ensures formData == old(formData).(ticketPrice := Some(FormatCurrency(typed)))
      ensures isAdmin == old(isAdmin) && editingId == old(editingId) && isAdding == old(isAdding)
      ensures showLoginModal == old(showLoginModal) && loginPassword == old(loginPassword) && storedAdmin == old(storedAdmin)
      ensures old(FormsExclusive()) ==> FormsExclusive()
      ensures old(FormsNeedAdmin()) ==> FormsNeedAdmin()
    {
      formData := formData.(ticketPrice := Some(NormalisePriceInput(typed)));
    }

    /** Typing in the Door Price field, normalised the same way. */
    method ChangeDoorPrice(typed: string)
      modifies this
      ensures formData == old(formData).(doorPrice := Some(FormatCurrency(typed)))
      ensures isAdmin == old(isAdmin) && editingId == old(editingId) && isAdding == old(isAdding)
      ensures showLoginModal == old(showLoginModal) && loginPassword == old(loginPassword) && storedAdmin == old(storedAdmin)
      ensures old(FormsExclusive()) ==> FormsExclusive()
      ensures old(FormsNeedAdmin()) ==> FormsNeedAdmin()
    {
      formData := formData.(doorPrice := Some(NormalisePriceInput(typed)));
    }

    /** The image file input, when the upload's reply arrives. `chosen` is
        the form as it was when the file was chosen: the handler spreads that
        captured value, so edits typed while the upload ran are lost, and if
        another form was opened meanwhile, it receives the first form's
        fields. A rejected upload (the `alert` path) changes nothing. */
    method ReceiveUpload(chosen: Draft, reply: UploadReply)
      modifies this
      ensures reply.Stored? && reply.imageUrl != "" ==> formData == WithUploadedImage(chosen, reply)
      ensures !(reply.Stored? && reply.imageUrl != "") ==> formData == old(formData)
      ensures isAdmin == old(isAdmin) && editingId == old(editingId) && isAdding == old(isAdding)
      ensures showLoginModal == old(showLoginModal) && loginPassword == old(loginPassword) && storedAdmin == old(storedAdmin)
      ensures old(FormsExclusive()) ==> FormsExclusive()
      ensures old(FormsNeedAdmin()) ==> FormsNeedAdmin()
    {
      if reply.Stored? && reply.imageUrl != "" {
        formData := WithUploadedImage(chosen, reply);
      }
    }

    /** `handleSave` up to its `await`: the request it sends, built from the
        form and `editingId` as they are now, or nothing (the `alert` path).
        No state changes here. */
    method Save() returns (sent: Option<Request>)
      ensures sent == SaveRequest(formData, editingId)
    {
      sent := SaveRequest(formData, editingId);
    }

    /** `handleSave` after an awaited request resolved, whatever its HTTP
        status: it closes whichever forms are open then and empties the
        form, which may be a form opened while the request was on its way.
        A `fetch` that throws never gets here. */
    method SaveResolved()
      modifies this
      ensures editingId.None? && !isAdding && formData == EmptyDraft
      ensures isAdmin == old(isAdmin) && showLoginModal == old(showLoginModal)
      ensures loginPassword == old(loginPassword) && storedAdmin == old(storedAdmin)
      ensures FormsExclusive()
      ensures old(FormsNeedAdmin()) ==> FormsNeedAdmin()
    {
      editingId := None;
      isAdding := false;
      formData := EmptyDraft;
    }
  }
}
