/** The records the application stores (types.ts). */
module Types {
  import opened Wrappers

  datatype Role = Admin | Employee

  /** A user account.  The optional properties of the record are `Option`s;
      `None` is a property that is absent (or `undefined`, which the storage
      round trip drops). */
  datatype User = User(
    id: string,
    username: string,
    email: string,
    role: Role,
    fullName: string,
    biometricCredentialId: Option<string>,
    avatar: Option<string>,
    phone: Option<string>,
    password: Option<string>)

  /** A drug in the inventory.  Prices are exact decimals; `createdAt` is a
      millisecond timestamp. */
  datatype Drug = Drug(
    id: string,
    agentName: string,
    manufacturer: string,
    tradeName: string,
    publicPrice: real,
    agentPrice: real,
    priceBeforeDiscount: real,
    discountPercent: real,
    addedBy: string,
    createdAt: int)

  datatype Notification = Notification(
    id: string,
    title: string,
    message: string,
    read: bool,
    date: int)

  /** `Partial<Drug>`: the properties an update or a form carries. */
  datatype DrugPatch = DrugPatch(
    id: Option<string>,
    agentName: Option<string>,
    manufacturer: Option<string>,
    tradeName: Option<string>,
    publicPrice: Option<real>,
    agentPrice: Option<real>,
    priceBeforeDiscount: Option<real>,
    discountPercent: Option<real>,
    addedBy: Option<string>,
    createdAt: Option<int>)

  /** `Partial<User> & { id: string, password?: string }`. */
  datatype UserPatch = UserPatch(
    id: string,
    username: Option<string>,
    email: Option<string>,
    role: Option<Role>,
    fullName: Option<string>,
    biometricCredentialId: Option<string>,
    avatar: Option<string>,
    phone: Option<string>,
    password: Option<string>)

  /** A patch with no properties. */
  const EmptyDrugPatch := DrugPatch(None, None, None, None, None, None, None, None, None, None)

  /** `{...d, ...p}`: every property the patch carries replaces the drug's. */
  function MergeDrug(d: Drug, p: DrugPatch): (r: Drug)
    ensures p == EmptyDrugPatch ==> r == d
    ensures r.id == if p.id.Some? then p.id.value else d.id
    ensures r.agentName == if p.agentName.Some? then p.agentName.value else d.agentName
    ensures r.manufacturer == if p.manufacturer.Some? then p.manufacturer.value else d.manufacturer
    ensures r.tradeName == if p.tradeName.Some? then p.tradeName.value else d.tradeName
    ensures r.publicPrice == if p.publicPrice.Some? then p.publicPrice.value else d.publicPrice
    ensures r.agentPrice == if p.agentPrice.Some? then p.agentPrice.value else d.agentPrice
    ensures r.priceBeforeDiscount == if p.priceBeforeDiscount.Some? then p.priceBeforeDiscount.value else d.priceBeforeDiscount
    ensures r.discountPercent == if p.discountPercent.Some? then p.discountPercent.value else d.discountPercent
    ensures r.addedBy == if p.addedBy.Some? then p.addedBy.value else d.addedBy
    ensures r.createdAt == if p.createdAt.Some? then p.createdAt.value else d.createdAt
  {
    Drug(
      p.id.GetOr(d.id),
      p.agentName.GetOr(d.agentName),
      p.manufacturer.GetOr(d.manufacturer),
      p.tradeName.GetOr(d.tradeName),
      p.publicPrice.GetOr(d.publicPrice),
      p.agentPrice.GetOr(d.agentPrice),
      p.priceBeforeDiscount.GetOr(d.priceBeforeDiscount),
      p.discountPercent.GetOr(d.discountPercent),
      p.addedBy.GetOr(d.addedBy),
      p.createdAt.GetOr(d.createdAt))
  }

  /** Applying the same patch twice is applying it once. */
  lemma MergeDrugIdempotent(d: Drug, p: DrugPatch)
    ensures MergeDrug(MergeDrug(d, p), p) == MergeDrug(d, p)
  {
  }

  /** The patch carrying every property of `d` (the edit form, filled from
      the drug being edited). */
  function PatchOf(d: Drug): (p: DrugPatch)
    ensures forall e: Drug :: MergeDrug(e, p) == d
  {
    DrugPatch(Some(d.id), Some(d.agentName), Some(d.manufacturer), Some(d.tradeName),
              Some(d.publicPrice), Some(d.agentPrice), Some(d.priceBeforeDiscount),
              Some(d.discountPercent), Some(d.addedBy), Some(d.createdAt))
  }

  /** A user record with its password removed (`const { password, ...safeUser }`). */
  function WithoutPassword(u: User): (r: User)
    ensures r.password.None?
    ensures r.(password := u.password) == u
  {
    u.(password := None)
  }
}
