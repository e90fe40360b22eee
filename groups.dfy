/** Model of groups/models.py: groups with their unique six-character codes,
    stores and products owned by a group, the bounded retention of purchased
    products, and the delete cascades of the foreign keys.

    The relational datastore is the class `Database`; each table is a map from
    primary key to record. Users live in the same datastore because the group
    tables refer to them (admin, blacklist, product creator). */
module Groups {

  datatype Option<T> = None | Some(value: T)

  type Code = string
  type UserId = nat
  type StoreId = nat
  type ProductId = nat

  function Min(a: int, b: int): int { if a < b then a else b }

  // ---------------------------------------------------------------------------
  // Group codes
  // ---------------------------------------------------------------------------

  const Alphabet: string := "0123456789ABCDEFGHIJKLMNOPQRSTUVWXYZ"
  const CodeLength: nat := 6

  /** A well-formed group code: six characters of the alphabet. */
  predicate ValidCode(c: string) {
    |c| == CodeLength && forall i :: 0 <= i < |c| ==> c[i] in Alphabet
  }

  /** One choice made by the random source: an index into the alphabet. */
  type Pick = i: nat | i < 36

  /** The string a run of picks spells. */
  function RandomString(picks: seq<Pick>): (s: string)
    ensures |s| == |picks|
    ensures forall i :: 0 <= i < |s| ==> s[i] in Alphabet
  {
    seq(|picks|, i requires 0 <= i < |picks| => Alphabet[picks[i]])
  }

  /** The number of complete draws of `CodeLength` picks in a random stream. */
  function DrawCount(stream: seq<Pick>): nat { |stream| / CodeLength }

  /** The k-th candidate code drawn from the stream. */
  function Draw(stream: seq<Pick>, k: nat): (c: Code)
    requires k < DrawCount(stream)
    ensures ValidCode(c)
  {
    RandomString(stream[CodeLength * k .. CodeLength * k + CodeLength])
  }

  /** The retry loop of `generate_unique_code`: draw candidates until one is
      not taken. The random source is the supplied stream; when it runs out of
      complete draws before a free code turns up, the result is None (the
      source would go on drawing). `attempts` counts the draws made. */
  method GenerateUniqueCode(taken: set<Code>, stream: seq<Pick>) returns (code: Option<Code>, attempts: nat)
    ensures attempts <= DrawCount(stream)
    ensures code.Some? ==> 1 <= attempts && code.value == Draw(stream, attempts - 1)
    ensures code.Some? ==> ValidCode(code.value) && code.value !in taken
    ensures code.Some? ==> forall j :: 0 <= j < attempts - 1 ==> Draw(stream, j) in taken
    ensures code.None? ==> attempts == DrawCount(stream)
    ensures code.None? ==> forall j :: 0 <= j < DrawCount(stream) ==> Draw(stream, j) in taken
  {
    if DrawCount(stream) == 0 {
      return None, 0;
    }
    var candidate := Draw(stream, 0);
    attempts := 1;
    while candidate in taken
      invariant 1 <= attempts <= DrawCount(stream)
      invariant candidate == Draw(stream, attempts - 1)
      invariant forall j :: 0 <= j < attempts - 1 ==> Draw(stream, j) in taken
      decreases DrawCount(stream) - attempts
    {
      if attempts == DrawCount(stream) {
        return None, attempts;
      }
      candidate := Draw(stream, attempts);
      attempts := attempts + 1;
    }
    code := Some(candidate);
  }

  // ---------------------------------------------------------------------------
  // Records
  // ---------------------------------------------------------------------------

  /** A group row; its code is the key of the groups table. */
  datatype Group = Group(admin: Option<UserId>, private: bool, blacklist: set<UserId>)

  datatype Store = Store(name: string, group: Option<Code>)

  datatype Priority = Low | Medium | High

  datatype Product = Product(
    title: string,
    priority: Priority,
    dateBuyed: Option<int>,
    store: Option<StoreId>,
    group: Option<Code>,
    addedBy: Option<UserId>)

  /** The user fields the core reads and writes. `group` is the membership
      pointer (reverse name `members`); `admin_of` is not stored: it is the group
      whose `admin` is this user. */
  datatype User = User(
    email: string,
    group: Option<Code>,
    verified: bool,
    verificationCode: Option<string>,
    lastEmailSent: Option<int>)

  /** The persisted single-character form of a priority. */
  function PriorityCode(p: Priority): char {
    match p
    case Low => 'L'
    case Medium => 'M'
    case High => 'H'
  }

  function ParsePriority(c: char): (p: Option<Priority>)
    ensures p.Some? <==> c in "LMH"
  {
    if c == 'L' then Some(Low)
    else if c == 'M' then Some(Medium)
    else if c == 'H' then Some(High)
    else None
  }

  lemma PriorityRoundTrip(p: Priority, c: char)
    ensures ParsePriority(PriorityCode(p)) == Some(p)
    ensures ParsePriority(c) == Some(p) ==> PriorityCode(p) == c
  {
  }

  // ---------------------------------------------------------------------------
  // Product retention
  // ---------------------------------------------------------------------------

  /** The products a group holds: the queryset `filter(group=...)`, where a null
      group selects the products without a group. */
  function InGroup(ps: map<ProductId, Product>, g: Option<Code>): set<ProductId> {
    set q | q in ps && ps[q].group == g
  }

  predicate Purchased(ps: map<ProductId, Product>, q: ProductId) {
    q in ps && ps[q].dateBuyed.Some?
  }

  function DateOf(ps: map<ProductId, Product>, q: ProductId): int
    requires Purchased(ps, q)
  {
    ps[q].dateBuyed.value
  }

  /** The purchased products of a group: the eviction candidates. */
  function PurchasedIn(ps: map<ProductId, Product>, g: Option<Code>): (s: set<ProductId>)
    ensures s <= InGroup(ps, g)
  {
    set q | q in ps && ps[q].group == g && ps[q].dateBuyed.Some?
  }

  function Elems(s: seq<ProductId>): set<ProductId> {
    set q | q in s
  }

  /** Every finite set of purchased products has one bought no later than all
      the others. */
  lemma {:induction false} EarliestPurchaseExists(ps: map<ProductId, Product>, s: set<ProductId>)
    requires s != {}
    requires forall q :: q in s ==> Purchased(ps, q)
    ensures exists x :: x in s && forall y :: y in s ==> DateOf(ps, x) <= DateOf(ps, y)
  {
    var z :| z in s;
    if s == {z} {
      assert forall y :: y in s ==> DateOf(ps, z) <= DateOf(ps, y);
    } else {
      EarliestPurchaseExists(ps, s - {z});
      var x :| x in s - {z} && forall y :: y in s - {z} ==> DateOf(ps, x) <= DateOf(ps, y);
      if DateOf(ps, z) < DateOf(ps, x) {
        assert forall y :: y in s ==> DateOf(ps, z) <= DateOf(ps, y);
      } else {
        assert forall y :: y in s ==> DateOf(ps, x) <= DateOf(ps, y);
      }
    }
  }

  /** The query `filter(group=g, date_buyed__isnull=False).order_by('date_buyed')[:n]`:
      up to n distinct purchased products of the group, earliest purchase first,
      none bought later than a purchased product left out. Ties are broken by
      an unspecified choice, as the database does. */
  method OldestPurchased(ps: map<ProductId, Product>, g: Option<Code>, n: nat) returns (victims: seq<ProductId>)
    ensures |victims| == Min(n, |PurchasedIn(ps, g)|)
    ensures forall i, j :: 0 <= i < j < |victims| ==> victims[i] != victims[j]
    ensures forall i :: 0 <= i < |victims| ==> victims[i] in PurchasedIn(ps, g)
    ensures forall i, j :: 0 <= i < j < |victims| ==> DateOf(ps, victims[i]) <= DateOf(ps, victims[j])
    ensures forall i, q :: 0 <= i < |victims| && q in PurchasedIn(ps, g) && q !in victims ==>
              DateOf(ps, victims[i]) <= DateOf(ps, q)
  {
    var rest := PurchasedIn(ps, g);
    victims := [];
    while |victims| < n && rest != {}
      invariant rest <= PurchasedIn(ps, g)
      invariant forall q :: q in PurchasedIn(ps, g) ==> (q in rest <==> q !in victims)
      invariant |victims| + |rest| == |PurchasedIn(ps, g)|
      invariant |victims| <= n
      invariant forall i, j :: 0 <= i < j < |victims| ==> victims[i] != victims[j]
      invariant forall i :: 0 <= i < |victims| ==> victims[i] in PurchasedIn(ps, g)
      invariant forall i, j :: 0 <= i < j < |victims| ==> DateOf(ps, victims[i]) <= DateOf(ps, victims[j])
      invariant forall i, q :: 0 <= i < |victims| && q in rest ==> DateOf(ps, victims[i]) <= DateOf(ps, q)
      decreases rest
    {
      EarliestPurchaseExists(ps, rest);
      var x :| x in rest && forall y :: y in rest ==> DateOf(ps, x) <= DateOf(ps, y);
      victims := victims + [x];
      rest := rest - {x};
    }
  }

  /** The eviction threshold and batch size of `Product.save`. */
  const Threshold: nat := 100
  const Batch: nat := 5

  // ---------------------------------------------------------------------------
  // Referential integrity
  // ---------------------------------------------------------------------------

  predicate RefersTo<K>(r: Option<K>, keys: set<K>) {
    r.None? || r.value in keys
  }

  /** The foreign-key constraints the datastore enforces, including the
      uniqueness of the one-to-one `admin` column. */
  ghost predicate Consistent(
    groups: map<Code, Group>, stores: map<StoreId, Store>,
    products: map<ProductId, Product>, users: map<UserId, User>)
  {
    && "" !in groups
    && (forall c :: c in groups ==> RefersTo(groups[c].admin, users.Keys) && groups[c].blacklist <= users.Keys)
    && (forall c, d :: c in groups && d in groups && c != d && groups[c].admin.Some? ==> groups[c].admin != groups[d].admin)
    && (forall s :: s in stores ==> RefersTo(stores[s].group, groups.Keys))
    && (forall q :: q in products ==>
          RefersTo(products[q].group, groups.Keys) && RefersTo(products[q].store, stores.Keys)
          && RefersTo(products[q].addedBy, users.Keys))
    && (forall u :: u in users ==> RefersTo(users[u].group, groups.Keys))
  }

  /** The members of a group: the users whose group pointer names it. */
  function Members(users: map<UserId, User>, code: Code): set<UserId> {
    set u | u in users && users[u].group == Some(code)
  }

  /** The stores that survive the deletion of group `code`. */
  function WithoutStoresOf(stores: map<StoreId, Store>, code: Code): map<StoreId, Store> {
    map s | s in stores && stores[s].group != Some(code) :: stores[s]
  }

  /** Whether a product is deleted with group `code`: it belongs to the group,
      or to one of the group's stores. */
  predicate GoesWith(stores: map<StoreId, Store>, p: Product, code: Code) {
    p.group == Some(code) || (p.store.Some? && p.store.value in stores && stores[p.store.value].group == Some(code))
  }

  /** The products that survive the deletion of group `code`. */
  function WithoutProductsOf(products: map<ProductId, Product>, stores: map<StoreId, Store>, code: Code): map<ProductId, Product> {
    map q | q in products && !GoesWith(stores, products[q], code) :: products[q]
  }

  /** The users after group `code` is deleted: its members have no group. */
  function WithoutMembership(users: map<UserId, User>, code: Code): map<UserId, User> {
    map u | u in users :: if users[u].group == Some(code) then users[u].(group := None) else users[u]
  }

  /** What the cascades of a group deletion amount to: exactly the rows whose
      foreign key would no longer resolve are removed (a store of the group; a
      product of the group or of a removed store), surviving rows are
      untouched, and every user keeps its row, its group pointer nulled when
      it named the deleted group. */
  lemma DeleteGroupRemovesExactlyTheDangling(
    groups: map<Code, Group>, stores: map<StoreId, Store>,
    products: map<ProductId, Product>, users: map<UserId, User>, code: Code)
    requires Consistent(groups, stores, products, users)
    ensures forall s :: s in WithoutStoresOf(stores, code) <==>
              s in stores && RefersTo(stores[s].group, (groups - {code}).Keys)
    ensures forall s :: s in WithoutStoresOf(stores, code) ==> WithoutStoresOf(stores, code)[s] == stores[s]
    ensures forall q :: q in WithoutProductsOf(products, stores, code) <==>
              && q in products
              && RefersTo(products[q].group, (groups - {code}).Keys)
              && RefersTo(products[q].store, WithoutStoresOf(stores, code).Keys)
    ensures forall q :: q in WithoutProductsOf(products, stores, code) ==>
              WithoutProductsOf(products, stores, code)[q] == products[q]
    ensures WithoutMembership(users, code).Keys == users.Keys
    ensures forall u :: u in users ==>
              WithoutMembership(users, code)[u]
              == if RefersTo(users[u].group, (groups - {code}).Keys) then users[u] else users[u].(group := None)
  {
  }

  /** Deleting a group with its cascades keeps every foreign key intact. */
  lemma DeleteGroupKeepsConsistent(
    groups: map<Code, Group>, stores: map<StoreId, Store>,
    products: map<ProductId, Product>, users: map<UserId, User>, code: Code)
    requires Consistent(groups, stores, products, users)
    ensures Consistent(groups - {code}, WithoutStoresOf(stores, code),
                       WithoutProductsOf(products, stores, code), WithoutMembership(users, code))
  {
  }

  /** The persisted state of the datastore. */
  class Database {
    var groups: map<Code, Group>
    var stores: map<StoreId, Store>
    var products: map<ProductId, Product>
    var users: map<UserId, User>

    ghost predicate Valid()
      reads this
    {
      Consistent(groups, stores, products, users)
    }

    /** Every admin is a member of the group it administers. The datastore
        does not enforce this; membership changes preserve it. */
    ghost predicate AdminsAreMembers()
      reads this
    {
      forall c :: c in groups && groups[c].admin.Some? ==>
        groups[c].admin.value in users && users[groups[c].admin.value].group == Some(c)
    }

    constructor ()
      ensures Valid() && AdminsAreMembers()
      ensures groups == map[] && stores == map[] && products == map[] && users == map[]
    {
      groups, stores, products, users := map[], map[], map[], map[];
    }

    /** Whether `g` may be written under `code` without breaking a foreign key
        or the uniqueness of the admin column. */
    predicate Fits(code: string, g: Group)
      reads this
    {
      && (g.admin.Some? ==> g.admin.value in users && forall c :: c in groups && c != code ==> groups[c].admin != g.admin)
      && g.blacklist <= users.Keys
    }

    /** `Group.save`: a group without a code gets a freshly generated one, a
        group with a code keeps it; then the row is written. */
    method SaveGroup(code: string, g: Group, stream: seq<Pick>) returns (saved: Option<Code>)
      requires Valid() && Fits(code, g)
      modifies this
      ensures Valid()
      ensures code != "" ==> saved == Some(code)
      ensures code == "" && saved.Some? ==> ValidCode(saved.value) && saved.value !in old(groups)
      ensures saved.Some? ==> groups == old(groups)[saved.value := g]
      ensures saved.None? ==> code == "" && groups == old(groups)
      ensures saved.None? ==> forall k :: 0 <= k < DrawCount(stream) ==> Draw(stream, k) in old(groups)
      ensures stores == old(stores) && products == old(products) && users == old(users)
    {
      if code == "" {
        var drawn, _ := GenerateUniqueCode(groups.Keys, stream);
        if drawn.None? {
          return None;
        }
        saved := drawn;
      } else {
        saved := Some(code);
      }
      groups := groups[saved.value := g];
    }

    /** `Store.save`: write a store row. */
    method SaveStore(id: StoreId, s: Store)
      requires Valid() && RefersTo(s.group, groups.Keys)
      modifies this
      ensures Valid()
      ensures stores == old(stores)[id := s]
      ensures groups == old(groups) && products == old(products) && users == old(users)
    {
      stores := stores[id := s];
    }

    /** `Product.save`: write the row; then, if the product's group holds more
        than `Threshold` products, delete the (at most) `Batch` earliest
        purchased ones, one at a time. `evicted` lists the deleted products. */
    method SaveProduct(id: ProductId, p: Product) returns (evicted: seq<ProductId>)
      requires Valid()
      requires RefersTo(p.group, groups.Keys) && RefersTo(p.store, stores.Keys) && RefersTo(p.addedBy, users.Keys)
      modifies this
      ensures Valid()
      ensures products == old(products)[id := p] - Elems(evicted)
      ensures |InGroup(old(products)[id := p], p.group)| <= Threshold ==> evicted == []
      ensures |InGroup(old(products)[id := p], p.group)| > Threshold ==>
                |evicted| == Min(Batch, |PurchasedIn(old(products)[id := p], p.group)|)
      ensures forall i, j :: 0 <= i < j < |evicted| ==> evicted[i] != evicted[j]
      ensures Elems(evicted) <= PurchasedIn(old(products)[id := p], p.group)
      ensures forall i :: 0 <= i < |evicted| ==> evicted[i] in PurchasedIn(old(products)[id := p], p.group)
      ensures forall i, q :: 0 <= i < |evicted| && q in PurchasedIn(old(products)[id := p], p.group) && q !in evicted ==>
                DateOf(old(products)[id := p], evicted[i]) <= DateOf(old(products)[id := p], q)
      ensures forall q :: q in old(products)[id := p] && q !in PurchasedIn(old(products)[id := p], p.group) ==>
                q in products && products[q] == old(products)[id := p][q]
      ensures groups == old(groups) && stores == old(stores) && users == old(users)
    {
      products := products[id := p];
      evicted := [];
      if |InGroup(products, p.group)| > Threshold {
        evicted := OldestPurchased(products, p.group, Batch);
        ghost var written := products;
        for i := 0 to |evicted|
          invariant products == written - Elems(evicted[..i])
          invariant groups == old(groups) && stores == old(stores) && users == old(users)
        {
          assert Elems(evicted[..i + 1]) == Elems(evicted[..i]) + {evicted[i]} by {
            assert evicted[..i + 1] == evicted[..i] + [evicted[i]];
          }
          products := products - {evicted[i]};
        }
        assert evicted[..|evicted|] == evicted;
      }
    }

    /** Write a user row (the membership pointer included). */
    method SaveUser(uid: UserId, u: User)
      requires Valid() && RefersTo(u.group, groups.Keys)
      modifies this
      ensures Valid()
      ensures users == old(users)[uid := u]
      ensures groups == old(groups) && stores == old(stores) && products == old(products)
    {
      users := users[uid := u];
    }

    /** `Group.delete`: the group's stores and products go with it (CASCADE),
        and so do the products of those stores (CASCADE on `Product.store`);
        members are left without a group. */
    method DeleteGroup(code: Code)
      requires Valid()
      modifies this
      ensures Valid()
      ensures groups == old(groups) - {code}
      ensures stores == WithoutStoresOf(old(stores), code)
      ensures products == WithoutProductsOf(old(products), old(stores), code)
      ensures users == WithoutMembership(old(users), code)
      ensures old(AdminsAreMembers()) ==> AdminsAreMembers()
    {
      DeleteGroupKeepsConsistent(groups, stores, products, users, code);
      groups, stores, products, users :=
        groups - {code},
        WithoutStoresOf(stores, code),
        WithoutProductsOf(products, stores, code),
        WithoutMembership(users, code);
    }

    /** `User.delete`: groups it administers lose their admin (SET_NULL), it
        leaves every blacklist, and the products it added go with it (CASCADE). */
    method DeleteUser(uid: UserId)
      requires Valid()
      modifies this
      ensures Valid()
      ensures users == old(users) - {uid}
      ensures groups.Keys == old(groups).Keys
      ensures forall c :: c in groups ==>
                groups[c] == old(groups)[c].(admin := if old(groups)[c].admin == Some(uid) then None else old(groups)[c].admin,
                                             blacklist := old(groups)[c].blacklist - {uid})
      ensures products == map q | q in old(products) && old(products)[q].addedBy != Some(uid) :: old(products)[q]
      ensures stores == old(stores)
      ensures old(AdminsAreMembers()) ==> AdminsAreMembers()
    {
      groups := map c | c in groups ::
        groups[c].(admin := if groups[c].admin == Some(uid) then None else groups[c].admin,
                   blacklist := groups[c].blacklist - {uid});
      products := map q | q in products && products[q].addedBy != Some(uid) :: products[q];
      users := users - {uid};
    }
  }

}
