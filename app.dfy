/**
 * The `App` component of src/App.tsx as a state machine: the lookup form,
 * the candidate list, the selection, the personal-info form and the
 * address book, changed by the component's event handlers.
 */
module AddressApp {
  import opened Wrappers
  import opened UriComponent
  import opened QueryString
  import opened FormState

  /** A candidate address from the lookup endpoint: its id and its other properties. */
  datatype Address = Address(id: string, fields: map<string, string>)

  /**
   * What the lookup request came back with: a non-success status, or a
   * success whose body's `details` list holds the candidates.
   */
  datatype Response = NotOk | Ok(details: seq<Address>)

  const NoResultsFound := "No results found!"
  const NoAddressSelected := "No address selected, try to select an address or find one if you haven't"
  const SelectedAddressNotFound := "Selected address not found"

  /** The names of the lookup request's query parameters. */
  const PostcodeParam := "postcode"
  const StreetNumberParam := "streetnumber"

  const DefaultFields: Fields := map["postCode" := "", "houseNumber" := ""]
  const DefaultFieldsPerson: Fields := map["firstName" := "", "lastName" := ""]

  /** `fields[name] || ''`: a missing field reads as the empty string. */
  function FieldOrEmpty(fields: Fields, name: string): string {
    if name in fields then fields[name] else ""
  }

  /** The parameters of the lookup request, in this order. */
  function LookupParams(fields: Fields): Params {
    [(PostcodeParam, FieldOrEmpty(fields, "postCode")), (StreetNumberParam, FieldOrEmpty(fields, "houseNumber"))]
  }

  /**
   * The lookup's query string is `postcode=…&streetnumber=…`, with both
   * values encoded and a missing field sent as the empty string, and it
   * reads back as exactly those two parameters.
   */
  lemma LookupQuery(fields: Fields)
    ensures BuildQueryString(LookupParams(fields))
         == PostcodeParam + "=" + Encode(FieldOrEmpty(fields, "postCode"))
          + "&" + StreetNumberParam + "=" + Encode(FieldOrEmpty(fields, "houseNumber"))
    ensures ParseQueryString(BuildQueryString(LookupParams(fields))) == Some(LookupParams(fields))
  {
    assert AllUnreserved(PostcodeParam) && AllUnreserved(StreetNumberParam);
    TwoParams(PostcodeParam, FieldOrEmpty(fields, "postCode"), StreetNumberParam, FieldOrEmpty(fields, "houseNumber"));
    ParseBuild(LookupParams(fields));
  }

  /** Two parameters whose names need no escaping give `name1=value1&name2=value2`. */
  lemma TwoParams(name1: string, value1: string, name2: string, value2: string)
    requires AllUnreserved(name1) && AllUnreserved(name2)
    ensures BuildQueryString([(name1, value1), (name2, value2)])
         == name1 + "=" + Encode(value1) + "&" + name2 + "=" + Encode(value2)
  {
    assert Encode(name1) == name1 by { EncodeIdentity(name1); }
    assert Encode(name2) == name2 by { EncodeIdentity(name2); }
    var segs := Segments([(name1, value1), (name2, value2)]);
    var e1, e2 := Encode(value1), Encode(value2);
    assert segs[0] == name1 + "=" + e1;
    assert segs[1] == name2 + "=" + e2;
    assert Join(segs, '&') == segs[0] + "&" + segs[1];
    assert segs[0] + "&" + segs[1] == name1 + "=" + e1 + "&" + name2 + "=" + e2;
  }

  /** Candidate i is the first one with this id. */
  predicate IsFirstWithId(addresses: seq<Address>, i: int, id: string) {
    && 0 <= i < |addresses|
    && addresses[i].id == id
    && forall j :: 0 <= j < i ==> addresses[j].id != id
  }

  /** `addresses.find((address) => address.id === id)`. */
  function FindById(addresses: seq<Address>, id: string): (r: Option<Address>)
    ensures r.None? <==> forall i :: 0 <= i < |addresses| ==> addresses[i].id != id
    ensures r.Some? ==> exists i :: IsFirstWithId(addresses, i, id) && addresses[i] == r.value
  {
    if addresses == [] then None
    else if addresses[0].id == id then
      assert IsFirstWithId(addresses, 0, id);
      Some(addresses[0])
    else
      var r := FindById(addresses[1..], id);
      if r.Some? then
        var i :| IsFirstWithId(addresses[1..], i, id) && addresses[1..][i] == r.value;
        assert IsFirstWithId(addresses, i + 1, id);
        r
      else
        r
  }

  /** `{ ...address, firstName, lastName }`: the names override properties of the same name. */
  function WithPerson(address: Address, firstName: string, lastName: string): (r: Address)
    ensures r.id == address.id
    ensures r.fields.Keys == address.fields.Keys + {"firstName", "lastName"}
    ensures r.fields["firstName"] == firstName && r.fields["lastName"] == lastName
    ensures forall k :: k in address.fields && k != "firstName" && k != "lastName" ==> r.fields[k] == address.fields[k]
  {
    address.(fields := address.fields["firstName" := firstName]["lastName" := lastName])
  }

  /**
   * The two checks of `handlePersonSubmit`: the candidate to add, or the
   * message to show. The first check fails exactly when nothing is selected
   * or there are no candidates; the second exactly when no candidate has the
   * selected id; otherwise the candidate is the first one with that id.
   */
  function ResolveSelection(selected: Option<Address>, addresses: seq<Address>): (r: Result<Address, string>)
    ensures r == Failure(NoAddressSelected) <==> selected.None? || addresses == []
    ensures r == Failure(SelectedAddressNotFound) <==>
      selected.Some? && addresses != [] && forall i :: 0 <= i < |addresses| ==> addresses[i].id != selected.value.id
    ensures r.Success? <==> selected.Some? && exists i :: 0 <= i < |addresses| && addresses[i].id == selected.value.id
    ensures r.Success? ==> selected.Some? && exists i :: IsFirstWithId(addresses, i, selected.value.id) && addresses[i] == r.value
  {
    if selected.None? || |addresses| == 0 then Failure(NoAddressSelected)
    else
      match FindById(addresses, selected.value.id)
      case None => Failure(SelectedAddressNotFound)
      case Some(found) => Success(found)
  }

  /** The state cells of the component and the address book it appends to. */
  class App {
    /** The lookup form, with fields `postCode` and `houseNumber`. */
    const addressForm: Form
    /** The personal-info form, with fields `firstName` and `lastName`. */
    const personForm: Form
    var isLoading: bool
    var error: Option<string>
    var selectedAddress: Option<Address>
    var addresses: seq<Address>
    /** Every record handed to `addAddress`, in order. */
    var addressBook: seq<Address>
    /** The ids of every candidate any successful lookup has returned. */
    ghost var fetchedIds: set<string>

    /**
     * The forms are distinct and keep their defaults, the personal-info form
     * always holds both name fields, and every candidate, selection and
     * address-book entry carries an id some lookup returned.
     */
    ghost predicate Valid()
      reads this, addressForm, personForm
    {
      && addressForm != personForm
      && addressForm.initialValues == DefaultFields
      && personForm.initialValues == DefaultFieldsPerson
      && DefaultFieldsPerson.Keys <= personForm.formFields.Keys
      && (forall a :: a in addresses ==> a.id in fetchedIds)
      && (selectedAddress.Some? ==> selectedAddress.value.id in fetchedIds)
      && (forall e :: e in addressBook ==> e.id in fetchedIds)
    }

    /** The first render, with an empty address book. */
    constructor ()
      ensures Valid() && fresh(addressForm) && fresh(personForm)
      ensures addressForm.formFields == DefaultFields && personForm.formFields == DefaultFieldsPerson
      ensures !isLoading && error == None && selectedAddress == None
      ensures addresses == [] && addressBook == []
      ensures fetchedIds == {}
    {
      addressForm := new Form(DefaultFields);
      personForm := new Form(DefaultFieldsPerson);
      isLoading := false;
      error := None;
      selectedAddress := None;
      addresses := [];
      addressBook := [];
      fetchedIds := {};
    }

    /** `handleChange` of the lookup form. */
    method ChangeAddressField(name: string, value: string)
      requires Valid()
      modifies addressForm
      ensures Valid()
      ensures addressForm.formFields == Changed(old(addressForm.formFields), name, value)
    {
      addressForm.HandleChange(name, value);
    }

    /** `handleChangePerson` of the personal-info form. */
    method ChangePersonField(name: string, value: string)
      requires Valid()
      modifies personForm
      ensures Valid()
      ensures personForm.formFields == Changed(old(personForm.formFields), name, value)
    {
      personForm.HandleChange(name, value);
    }

    /**
     * `handleAddressSubmit` up to the request: clears the error, raises the
     * loading flag and returns the query string of the request URL. The
     * candidates and the selection are left as they were.
     */
    method BeginLookup() returns (query: string)
      requires Valid()
      modifies this
      ensures Valid()
      ensures error == None && isLoading
      ensures addresses == old(addresses) && selectedAddress == old(selectedAddress)
      ensures addressBook == old(addressBook) && fetchedIds == old(fetchedIds)
      ensures query == BuildQueryString(LookupParams(addressForm.formFields))
    {
      error := None;
      isLoading := true;
      var params := LookupParams(addressForm.formFields);
      query := BuildQueryString(params);
    }

    /**
     * `handleAddressSubmit` once the response is in. A failure shows the
     * fixed message and keeps the old candidates; a success replaces them
     * all and leaves the error as it is. Either way loading ends.
     */
    method CompleteLookup(response: Response)
      requires Valid()
      modifies this
      ensures Valid()
      ensures !isLoading
      ensures response.NotOk? ==> error == Some(NoResultsFound) && addresses == old(addresses)
      ensures response.Ok? ==> error == old(error) && addresses == response.details
      ensures selectedAddress == old(selectedAddress) && addressBook == old(addressBook)
      ensures fetchedIds == if response.NotOk? then old(fetchedIds) else old(fetchedIds) + set a | a in response.details :: a.id
    {
      if response.NotOk? {
        error := Some(NoResultsFound);
        isLoading := false;
        return;
      }
      isLoading := false;
      fetchedIds := fetchedIds + set a | a in response.details :: a.id;
      addresses := response.details;
    }

    /** The whole of `handleAddressSubmit` when no other event comes between request and response. */
    method HandleAddressSubmit(response: Response) returns (query: string)
      requires Valid()
      modifies this
      ensures Valid()
      ensures query == BuildQueryString(LookupParams(addressForm.formFields))
      ensures !isLoading
      ensures error == if response.NotOk? then Some(NoResultsFound) else None
      ensures addresses == if response.NotOk? then old(addresses) else response.details
      ensures selectedAddress == old(selectedAddress) && addressBook == old(addressBook)
      ensures fetchedIds == if response.NotOk? then old(fetchedIds) else old(fetchedIds) + set a | a in response.details :: a.id
    {
      query := BeginLookup();
      CompleteLookup(response);
    }

    /** The `onChange` of the radio button shown for candidate `index`. */
    method Select(index: nat)
      requires Valid()
      requires index < |addresses|
      modifies this
      ensures Valid()
      ensures selectedAddress == Some(old(addresses[index]))
      ensures isLoading == old(isLoading) && error == old(error)
      ensures addresses == old(addresses) && addressBook == old(addressBook)
      ensures fetchedIds == old(fetchedIds)
    {
      selectedAddress := Some(addresses[index]);
    }

    /**
     * `handlePersonSubmit`: on a failed check, the check's message and no
     * record; otherwise exactly one record appended, built from the found
     * candidate and the current names, with the error left as it is.
     */
    method HandlePersonSubmit()
      requires Valid()
      modifies this
      ensures Valid()
      ensures match ResolveSelection(old(selectedAddress), old(addresses))
        case Failure(message) => error == Some(message) && addressBook == old(addressBook)
        case Success(found) =>
          && error == old(error)
          && addressBook == old(addressBook)
             + [WithPerson(found, personForm.formFields["firstName"], personForm.formFields["lastName"])]
      ensures isLoading == old(isLoading) && selectedAddress == old(selectedAddress)
      ensures addresses == old(addresses) && fetchedIds == old(fetchedIds)
    {
      if selectedAddress.None? || |addresses| == 0 {
        error := Some(NoAddressSelected);
        return;
      }
      var foundAddress := FindById(addresses, selectedAddress.value.id);
      if foundAddress.None? {
        error := Some(SelectedAddressNotFound);
        return;
      }
      var firstName := personForm.formFields["firstName"];
      var lastName := personForm.formFields["lastName"];
      addressBook := addressBook + [WithPerson(foundAddress.value, firstName, lastName)];
    }

    /**
     * "Clear all fields": both forms back to their defaults, no error, no
     * selection, no candidates. The address book and the loading flag are
     * left as they are.
     */
    method ClearAll()
      requires Valid()
      modifies this, addressForm, personForm
      ensures Valid()
      ensures addressForm.formFields == DefaultFields && personForm.formFields == DefaultFieldsPerson
      ensures error == None && selectedAddress == None && addresses == []
      ensures isLoading == old(isLoading) && addressBook == old(addressBook)
      ensures fetchedIds == old(fetchedIds)
    {
      addressForm.ResetFields();
      personForm.ResetFields();
      error := None;
      selectedAddress := None;
      addresses := [];
    }
  }

  // ---------------------------------------------------------------------
  // Whole interactions, each a path the page lets a user take: the
  // personal-info form is shown only while an address is selected.
  // ---------------------------------------------------------------------

  /** Look up, pick the one candidate, type the names, submit: one record in the book. */
  method AddOneAddress(postCode: string, houseNumber: string, candidate: Address, firstName: string, lastName: string)
    returns (book: seq<Address>, message: Option<string>)
    ensures book == [WithPerson(candidate, firstName, lastName)]
    ensures message == None
  {
    var app := new App();
    app.ChangeAddressField("postCode", postCode);
    app.ChangeAddressField("houseNumber", houseNumber);
    var _ := app.HandleAddressSubmit(Ok([candidate]));
    app.Select(0);
    app.ChangePersonField("firstName", firstName);
    app.ChangePersonField("lastName", lastName);
    assert app.personForm.formFields["firstName"] == firstName;
    assert ResolveSelection(Some(candidate), [candidate]) == Success(candidate) by {
      assert IsFirstWithId([candidate], 0, candidate.id);
    }
    app.HandlePersonSubmit();
    book, message := app.addressBook, app.error;
  }

  /** Typing a post code and a house number and pressing "Find" requests `postcode=…&streetnumber=…`. */
  method TypeAndFind(postCode: string, houseNumber: string) returns (query: string)
    ensures query == PostcodeParam + "=" + Encode(postCode) + "&" + StreetNumberParam + "=" + Encode(houseNumber)
  {
    var app := new App();
    app.ChangeAddressField("postCode", postCode);
    app.ChangeAddressField("houseNumber", houseNumber);
    ghost var fields := app.addressForm.formFields;
    assert FieldOrEmpty(fields, "postCode") == postCode && FieldOrEmpty(fields, "houseNumber") == houseNumber;
    query := app.BeginLookup();
    LookupQuery(fields);
  }

  /**
   * Select a candidate, then a lookup that succeeds with no candidates: the
   * selection (and so the personal-info form) stays, and submitting adds
   * nothing and fails the first check.
   */
  method EmptyLookupThenSubmit(candidate: Address, firstName: string, lastName: string)
    returns (book: seq<Address>, message: Option<string>, selected: Option<Address>)
    ensures book == [] && message == Some(NoAddressSelected)
    ensures selected == Some(candidate)
  {
    var app := new App();
    var _ := app.HandleAddressSubmit(Ok([candidate]));
    app.Select(0);
    app.ChangePersonField("firstName", firstName);
    app.ChangePersonField("lastName", lastName);
    var _ := app.HandleAddressSubmit(Ok([]));
    app.HandlePersonSubmit();
    book, message, selected := app.addressBook, app.error, app.selectedAddress;
  }

  /**
   * Select a candidate, then a lookup whose candidates all have other ids:
   * submitting adds nothing and says the selected address was not found.
   */
  method StaleSelectionThenSubmit(candidate: Address, others: seq<Address>)
    returns (book: seq<Address>, message: Option<string>, selected: Option<Address>)
    requires others != []
    requires forall i :: 0 <= i < |others| ==> others[i].id != candidate.id
    ensures book == [] && message == Some(SelectedAddressNotFound)
    ensures selected == Some(candidate)
  {
    var app := new App();
    var _ := app.HandleAddressSubmit(Ok([candidate]));
    app.Select(0);
    var _ := app.HandleAddressSubmit(Ok(others));
    app.HandlePersonSubmit();
    book, message, selected := app.addressBook, app.error, app.selectedAddress;
  }

  /** A failed lookup after a successful one keeps the earlier candidates on screen. */
  method FailedLookupKeepsResults(details: seq<Address>) returns (candidates: seq<Address>, message: Option<string>, loading: bool)
    ensures candidates == details && message == Some(NoResultsFound) && !loading
  {
    var app := new App();
    var _ := app.HandleAddressSubmit(Ok(details));
    var _ := app.HandleAddressSubmit(NotOk);
    candidates, message, loading := app.addresses, app.error, app.isLoading;
  }

  /**
   * Add one address, then "Clear all fields": the forms, candidates,
   * selection and error are cleared, and the book still holds the record.
   */
  method ClearKeepsBook(candidate: Address, firstName: string, lastName: string)
    returns (book: seq<Address>, candidates: seq<Address>, selected: Option<Address>, fields: Fields)
    ensures book == [WithPerson(candidate, firstName, lastName)]
    ensures candidates == [] && selected == None && fields == DefaultFieldsPerson
  {
    var app := new App();
    var _ := app.HandleAddressSubmit(Ok([candidate]));
    app.Select(0);
    app.ChangePersonField("firstName", firstName);
    app.ChangePersonField("lastName", lastName);
    assert app.personForm.formFields["firstName"] == firstName;
    assert ResolveSelection(Some(candidate), [candidate]) == Success(candidate) by {
      assert IsFirstWithId([candidate], 0, candidate.id);
    }
    app.HandlePersonSubmit();
    app.ClearAll();
    book, candidates, selected, fields := app.addressBook, app.addresses, app.selectedAddress, app.personForm.formFields;
  }
}
