/** The mapping from one HubSpot contact to the candidate row the sync function upserts
    (supabase/functions/sync-hubspot/index.ts, the object literal `candidateData`). */
module ContactMapper {
  import opened Options

  /** A contact's property bag: a property name that is a key has a `{ value }` wrapper
      holding the given string; a name that is not a key has no wrapper at all. */
  type PropertyBag = map<string, string>

  /** A contact as the HubSpot client returns it. */
  datatype Contact = Contact(id: string, properties: PropertyBag)

  /** The candidate fields the mapper produces. An optional field that is `None` is
      `undefined` in the source, so the key is left out of the request sent to the store. */
  datatype CandidateData = CandidateData(
    organizationId: string,
    hubspotId: string,
    firstName: string,
    lastName: string,
    personalEmail: Option<string>,
    phone: Option<string>,
    currentCompany: Option<string>,
    currentJobTitle: Option<string>,
    relationshipType: string,
    lastSyncAt: string)

  /** The four optional columns, each passed through from one contact property. */
  datatype OptionalColumn = PersonalEmail | Phone | CurrentCompany | CurrentJobTitle

  const FirstNameProperty := "firstname"
  const LastNameProperty := "lastname"
  const CandidateRelationship := "candidate"

  /** The six properties the mapper reads; every other property is ignored. */
  const MappedProperties: set<string> :=
    {"firstname", "lastname", "email", "phone", "company", "jobtitle"}

  /** The contact property an optional column is copied from. */
  function SourceProperty(c: OptionalColumn): (name: string)
    ensures name in MappedProperties && name != FirstNameProperty && name != LastNameProperty
  {
    match c
    case PersonalEmail => "email"
    case Phone => "phone"
    case CurrentCompany => "company"
    case CurrentJobTitle => "jobtitle"
  }

  /** The value of an optional column of `d`. */
  function Column(d: CandidateData, c: OptionalColumn): Option<string> {
    match c
    case PersonalEmail => d.personalEmail
    case Phone => d.phone
    case CurrentCompany => d.currentCompany
    case CurrentJobTitle => d.currentJobTitle
  }

  /** `properties.<name>?.value`: the wrapper's value, or `undefined` without a wrapper. */
  function PropertyValue(props: PropertyBag, name: string): (v: Option<string>)
    ensures v.Some? <==> name in props
    ensures v.Some? ==> v.value == props[name]
  {
    if name in props then Some(props[name]) else None
  }

  /** `v || ''`: the value when it is truthy (a non-empty string), `''` otherwise.
      The truthiness test changes nothing: the result is the value whenever there is one. */
  function OrEmpty(v: Option<string>): (r: string)
    ensures r == v.GetOr("")
  {
    if v.Some? && v.value != "" then v.value else ""
  }

  /** The candidate row for `contact`, owned by `organizationId`, synced at `now`. */
  function MapContact(contact: Contact, organizationId: string, now: string): (r: CandidateData)
    ensures r.organizationId == organizationId && r.hubspotId == contact.id
    ensures r.relationshipType == CandidateRelationship && r.lastSyncAt == now
    ensures r.firstName == (if FirstNameProperty in contact.properties then contact.properties[FirstNameProperty] else "")
    ensures r.lastName == (if LastNameProperty in contact.properties then contact.properties[LastNameProperty] else "")
    ensures forall c :: Column(r, c).Some? <==> SourceProperty(c) in contact.properties
    ensures forall c :: Column(r, c).Some? ==> Column(r, c).value == contact.properties[SourceProperty(c)]
  {
    var props := contact.properties;
    CandidateData(
      organizationId,
      contact.id,
      OrEmpty(PropertyValue(props, FirstNameProperty)),
      OrEmpty(PropertyValue(props, LastNameProperty)),
      PropertyValue(props, "email"),
      PropertyValue(props, "phone"),
      PropertyValue(props, "company"),
      PropertyValue(props, "jobtitle"),
      CandidateRelationship,
      now)
  }

  /** The part of a property bag the mapper can see: the six mapped properties, without a
      name property whose value is empty (the mapper cannot tell it from a missing one). */
  function Relevant(props: PropertyBag): PropertyBag {
    map k | k in props && k in MappedProperties
                       && (k == FirstNameProperty || k == LastNameProperty ==> props[k] != "")
      :: props[k]
  }

  /** A name as a property value: an empty name is no property at all. */
  function NonEmpty(s: string): Option<string> {
    if s == "" then None else Some(s)
  }

  /** The value property `name` must have for a contact to map to `d`. */
  function PropertyFor(d: CandidateData, name: string): Option<string> {
    if name == FirstNameProperty then NonEmpty(d.firstName)
    else if name == LastNameProperty then NonEmpty(d.lastName)
    else if name == "email" then d.personalEmail
    else if name == "phone" then d.phone
    else if name == "company" then d.currentCompany
    else if name == "jobtitle" then d.currentJobTitle
    else None
  }

  /** The property bag of a contact that maps to `d`: the mapping read backwards. */
  function PropertiesOf(d: CandidateData): PropertyBag {
    map k | k in MappedProperties && PropertyFor(d, k).Some? :: PropertyFor(d, k).value
  }

  /** Mapping loses nothing the six mapped properties hold and adds nothing: reading the row
      backwards gives back exactly the relevant part of the contact's properties. */
  lemma MapContactLosesNothing(contact: Contact, organizationId: string, now: string)
    ensures PropertiesOf(MapContact(contact, organizationId, now)) == Relevant(contact.properties)
  {
  }

  /** Every candidate row of this pipeline comes from some contact, and from the contact whose
      properties are read back from it. */
  lemma MapContactOnto(d: CandidateData)
    requires d.relationshipType == CandidateRelationship
    ensures MapContact(Contact(d.hubspotId, PropertiesOf(d)), d.organizationId, d.lastSyncAt) == d
  {
  }

  /** Properties other than the six mapped ones, and empty name properties, do not change
      the row. */
  lemma MapContactReadsOnlyRelevant(c1: Contact, c2: Contact, organizationId: string, now: string)
    requires c1.id == c2.id && Relevant(c1.properties) == Relevant(c2.properties)
    ensures MapContact(c1, organizationId, now) == MapContact(c2, organizationId, now)
  {
    var r1, r2 := MapContact(c1, organizationId, now), MapContact(c2, organizationId, now);
    forall c ensures Column(r1, c) == Column(r2, c) {
      var name := SourceProperty(c);
      assert name in c1.properties <==> name in Relevant(c1.properties);
      assert name in c2.properties <==> name in Relevant(c2.properties);
    }
    assert r1.firstName == r2.firstName by {
      var n := FirstNameProperty;
      assert n in Relevant(c1.properties) ==> c1.properties[n] == Relevant(c1.properties)[n];
      assert n in Relevant(c2.properties) ==> c2.properties[n] == Relevant(c2.properties)[n];
    }
    assert r1.lastName == r2.lastName by {
      var n := LastNameProperty;
      assert n in Relevant(c1.properties) ==> c1.properties[n] == Relevant(c1.properties)[n];
      assert n in Relevant(c2.properties) ==> c2.properties[n] == Relevant(c2.properties)[n];
    }
    assert Column(r1, PersonalEmail) == Column(r2, PersonalEmail);
    assert Column(r1, Phone) == Column(r2, Phone);
    assert Column(r1, CurrentCompany) == Column(r2, CurrentCompany);
    assert Column(r1, CurrentJobTitle) == Column(r2, CurrentJobTitle);
  }
}
