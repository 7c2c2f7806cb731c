/** The shared parts market and the merchants' own stock (clients/tasks.py, inventory/signals.py,
    inventory/services/inventory_service.py): which listings the sync keeps in agreement, and which
    it leaves behind. */
module MarketSync {
  const NAME_LIMIT := 200
  const BRAND_LIMIT := 100

  datatype Condition = New | Used | Core

  /** A product row of one merchant's schema. */
  datatype Ref = Ref(tenant: nat, id: nat)

  /** Prices are in piastres. */
  datatype Product = Product(
    part: string, condition: Condition, name: string, brand: string,
    retail: nat, wholesale: nat, published: bool, active: bool)

  datatype Row = Row(product: Ref, branch: nat, quantity: nat)

  /** The unique key of the shared table. */
  datatype Slot = Slot(tenant: nat, part: string, condition: Condition)

  datatype Listing = Listing(name: string, brand: string, price: nat, quantity: nat)

  /** `syncs` and `removals` are the messages on their way; one can be delivered more than once. */
  datatype Market = Market(
    clients: set<nat>, products: map<Ref, Product>, stock: seq<Row>, listings: map<Slot, Listing>,
    syncs: set<Ref>, removals: set<Slot>)

  /** `sent`: whether the message broker took the messages of a step; of a recount, for which products.
      `again`: whether a delivered message will come once more. */
  datatype Event =
    | Recount(quantities: seq<nat>, synced: set<Ref>)  // sales, purchases, transfers: any change of quantities
    | AddRow(row: Row, sent: bool)
    | DropRow(index: nat, sent: bool)
    | Save(ref: Ref, product: Product)        // a product created or edited
    | Delete(ref: Ref, sent: bool)            // its stock rows go with it
    | Deliver(ref: Ref, again: bool)          // async_sync_b2b_marketplace_product
    | Remove(slot: Slot, again: bool)         // async_remove_b2b_marketplace_product
    | Approve(ref: Ref, price: nat)           // approve_b2b_listing

  // ---------- what the code computes ----------

  function Total(rows: seq<Row>, ref: Ref): nat {
    if rows == [] then 0
    else (if rows[0].product == ref then rows[0].quantity else 0) + Total(rows[1..], ref)
  }

  function WithoutRows(rows: seq<Row>, ref: Ref): seq<Row> {
    if rows == [] then []
    else (if rows[0].product == ref then [] else [rows[0]]) + WithoutRows(rows[1..], ref)
  }

  function Recounted(rows: seq<Row>, quantities: seq<nat>): (r: seq<Row>)
    ensures |r| == |rows|
  {
    if |quantities| != |rows| then rows
    else seq(|rows|, i requires 0 <= i < |rows| => rows[i].(quantity := quantities[i]))
  }

  predicate HasRow(rows: seq<Row>, ref: Ref) { exists i :: 0 <= i < |rows| && rows[i].product == ref }

  function Cut(s: string, limit: nat): string { if |s| <= limit then s else s[..limit] }

  function SlotOf(ref: Ref, p: Product): Slot { Slot(ref.tenant, p.part, p.condition) }

  function MarketPrice(p: Product): nat { if p.retail > 0 then p.retail else p.wholesale }

  predicate Shown(m: Market, ref: Ref)
    requires ref in m.products
  {
    m.products[ref].published && m.products[ref].active && Total(m.stock, ref) > 0
  }

  /** The database refuses a second product with the part number, and over-long texts. */
  predicate Storable(m: Market, ref: Ref, p: Product) {
    && |p.name| <= NAME_LIMIT && |p.brand| <= BRAND_LIMIT
    && forall r :: r in m.products && r != ref && r.tenant == ref.tenant ==> m.products[r].part != p.part
  }

  function Synced(m: Market, ref: Ref): Market {
    if ref !in m.products || ref.tenant !in m.clients then m
    else
      var p := m.products[ref];
      var slot := SlotOf(ref, p);
      if !Shown(m, ref) then m.(listings := m.listings - {slot})
      else if slot in m.listings then
        m.(listings := m.listings[slot := Listing(Cut(p.name, NAME_LIMIT), Cut(p.brand, BRAND_LIMIT),
                                                  m.listings[slot].price, Total(m.stock, ref))])
      else m
  }

  function Delivered(m: Market, ref: Ref, again: bool): Market {
    if ref !in m.syncs then m
    else Synced(m.(syncs := if again then m.syncs else m.syncs - {ref}), ref)
  }

  function SyncedNow(m: Market, ref: Ref, override: nat): Market
    requires ref in m.products
  {
    if ref.tenant !in m.clients then m
    else
      var p := m.products[ref];
      var slot := SlotOf(ref, p);
      if Shown(m, ref) then
        var price := if override > 0 then override else MarketPrice(p);
        m.(listings := m.listings[slot := Listing(p.name, p.brand, price, Total(m.stock, ref))])
      else m.(listings := m.listings - {slot})
  }

  function Saved(m: Market, ref: Ref, p: Product): Market {
    if !Storable(m, ref, p) then m
    else
      var stored := m.(products := m.products[ref := p]);
      if p.published then stored else SyncedNow(stored, ref, 0)
  }

  function Approved(m: Market, ref: Ref, price: nat): Market {
    if ref !in m.products then m
    else SyncedNow(m.(products := m.products[ref := m.products[ref].(published := true)]), ref, price)
  }

  /** Deleting a stock row asks for the removal of its product's listing. */
  function RowDropped(m: Market, index: nat, sent: bool): Market {
    if index >= |m.stock| then m
    else
      var ref := m.stock[index].product;
      m.(stock := m.stock[..index] + m.stock[index + 1..],
         removals := m.removals + if sent && ref in m.products then {SlotOf(ref, m.products[ref])} else {})
  }

  /** The deletion cascades to the stock rows, and each of them asks for the removal. */
  function Deleted(m: Market, ref: Ref, sent: bool): Market {
    m.(products := m.products - {ref},
       stock := WithoutRows(m.stock, ref),
       removals := m.removals + if sent && ref in m.products && HasRow(m.stock, ref)
                                then {SlotOf(ref, m.products[ref])} else {})
  }

  function Removed(m: Market, slot: Slot, again: bool): Market {
    if slot !in m.removals then m
    else m.(listings := m.listings - {slot}, removals := if again then m.removals else m.removals - {slot})
  }

  /** A saved stock row asks for the sync of its product. */
  function RowAdded(m: Market, row: Row, sent: bool): Market {
    m.(stock := m.stock + [row], syncs := m.syncs + if sent then {row.product} else {})
  }

  function Do(m: Market, e: Event): Market {
    match e
    case Recount(quantities, synced) => m.(stock := Recounted(m.stock, quantities), syncs := m.syncs + synced)
    case AddRow(row, sent) => RowAdded(m, row, sent)
    case DropRow(index, sent) => RowDropped(m, index, sent)
    case Save(ref, p) => Saved(m, ref, p)
    case Delete(ref, sent) => Deleted(m, ref, sent)
    case Deliver(ref, again) => Delivered(m, ref, again)
    case Remove(slot, again) => Removed(m, slot, again)
    case Approve(ref, price) => Approved(m, ref, price)
  }

  function Run(m: Market, es: seq<Event>): Market {
    if es == [] then m else Do(Run(m, es[..|es| - 1]), es[|es| - 1])
  }

  // ---------- the tables ----------

  class MarketDesk {
    var clients: set<nat>
    var products: map<Ref, Product>
    var stock: seq<Row>
    var listings: map<Slot, Listing>
    var syncs: set<Ref>               // on their way through the broker
    var removals: set<Slot>

    ghost function Contents(): Market
      reads this
    {
      Market(clients, products, stock, listings, syncs, removals)
    }

    constructor (m: Market)
      ensures Contents() == m
    {
      clients, products, stock, listings := m.clients, m.products, m.stock, m.listings;
      syncs, removals := m.syncs, m.removals;
    }

    /** The sync task, for one delivered message. */
    method SyncProduct(ref: Ref) returns (action: string)
      modifies `listings
      ensures Contents() == Synced(old(Contents()), ref)
      ensures action == "updated" <==> ref in products && ref.tenant in clients &&
                                       Shown(old(Contents()), ref) && SlotOf(ref, products[ref]) in listings
      ensures action == "removed" <==> listings.Keys < old(listings).Keys
    {
      action := "skipped";
      if ref !in products { return; }
      var p := products[ref];
      var total := Total(stock, ref);
      var publishable := p.published && p.active;
      if ref.tenant !in clients { return; }
      var slot := SlotOf(ref, p);
      if !publishable || total <= 0 {
        if slot in listings { action := "removed"; }
        listings := listings - {slot};
      } else if slot in listings {
        listings := listings[slot := Listing(Cut(p.name, NAME_LIMIT), Cut(p.brand, BRAND_LIMIT),
                                             listings[slot].price, total)];
        action := "updated";
      }
    }

    /** sync_product_to_b2b. */
    method SyncNow(ref: Ref, override: nat)
      requires ref in products
      modifies `listings
      ensures Contents() == SyncedNow(old(Contents()), ref, override)
      ensures override > 0 && ref.tenant in clients && SlotOf(ref, products[ref]) in listings ==>
                listings[SlotOf(ref, products[ref])].price == override
    {
      var p := products[ref];
      var total := Total(stock, ref);
      if ref.tenant !in clients { return; }
      var slot := SlotOf(ref, p);
      if p.published && p.active && total > 0 {
        var price := override;
        if price == 0 { price := MarketPrice(p); }
        listings := listings[slot := Listing(p.name, p.brand, price, total)];
      } else {
        listings := listings - {slot};
      }
    }

    method SaveProduct(ref: Ref, p: Product)
      modifies `listings, `products
      ensures Contents() == Saved(old(Contents()), ref, p)
    {
      if !Storable(Market(clients, products, stock, listings, syncs, removals), ref, p) { return; }
      products := products[ref := p];
      if !p.published { SyncNow(ref, 0); }
    }

    method ApproveListing(ref: Ref, price: nat)
      modifies `listings, `products
      ensures Contents() == Approved(old(Contents()), ref, price)
      ensures price > 0 && ref in products && ref.tenant in clients && SlotOf(ref, products[ref]) in listings ==>
                listings[SlotOf(ref, products[ref])].price == price
    {
      if ref !in products { return; }
      products := products[ref := products[ref].(published := true)];
      SyncNow(ref, price);
    }

    method DeliverSync(ref: Ref, again: bool)
      modifies `listings, `syncs
      ensures Contents() == Delivered(old(Contents()), ref, again)
    {
      if ref !in syncs { return; }
      if !again { syncs := syncs - {ref}; }
      var _ := SyncProduct(ref);
    }

    /** dispatch_b2b_sync, for one saved stock row. */
    method DispatchSync(ref: Ref, sent: bool)
      modifies `syncs
      ensures syncs == old(syncs) + if sent then {ref} else {}
    {
      if !sent { return; }
      syncs := syncs + {ref};
    }

    method AddStockRow(row: Row, sent: bool)
      modifies `stock, `syncs
      ensures Contents() == RowAdded(old(Contents()), row, sent)
    {
      stock := stock + [row];
      DispatchSync(row.product, sent);
    }

    /** dispatch_b2b_delete, for one deleted stock row. */
    method DispatchDelete(ref: Ref, sent: bool)
      requires ref in products
      modifies `removals
      ensures removals == old(removals) + if sent then {SlotOf(ref, products[ref])} else {}
    {
      var slot := SlotOf(ref, products[ref]);
      if !sent { return; }
      removals := removals + {slot};
    }

    /** The row goes and nothing else; the message names the product's slot, whatever other branches hold. */
    method DeleteRow(index: nat, sent: bool)
      requires index < |stock|
      modifies `stock, `removals
      ensures Contents() == RowDropped(old(Contents()), index, sent)
      ensures multiset(stock) == multiset(old(stock)) - multiset{old(stock)[index]}
    {
      var ref := stock[index].product;
      assert stock == stock[..index] + [stock[index]] + stock[index + 1..];
      stock := stock[..index] + stock[index + 1..];
      if ref in products { DispatchDelete(ref, sent); }
    }

    /** The product's rows go one by one, and each asks for the removal. */
    method DeleteProduct(ref: Ref, sent: bool)
      modifies `products, `stock, `removals
      ensures Contents() == Deleted(old(Contents()), ref, sent)
    {
      if ref in products {
        for i := 0 to |stock|
          invariant products == old(products) && stock == old(stock)
          invariant removals == old(removals) + if sent && HasRow(stock[..i], ref)
                                                then {SlotOf(ref, products[ref])} else {}
        {
          HasRowStep(stock, i, ref);
          if stock[i].product == ref { DispatchDelete(ref, sent); }
        }
        assert stock[..|stock|] == stock;
      }
      stock := WithoutRows(stock, ref);
      products := products - {ref};
    }

    /** The removal task, for one delivered message. */
    method RemoveListing(slot: Slot, again: bool)
      modifies `listings, `removals
      ensures Contents() == Removed(old(Contents()), slot, again)
    {
      if slot !in removals { return; }
      listings := listings - {slot};
      if !again { removals := removals - {slot}; }
    }
  }

  lemma HasRowStep(rows: seq<Row>, i: nat, ref: Ref)
    requires i < |rows|
    ensures HasRow(rows[..i + 1], ref) <==> HasRow(rows[..i], ref) || rows[i].product == ref
  {
    assert rows[..i + 1] == rows[..i] + [rows[i]];
    if rows[i].product == ref { assert rows[..i + 1][i].product == ref; }
    if k :| 0 <= k < i && rows[..i][k].product == ref { assert rows[..i + 1][k].product == ref; }
  }

  // ---------- agreement ----------

  /** Whatever the market shows for the product is its present stock and description; an unpublished,
      inactive or empty product is not shown. */
  predicate Agrees(m: Market, ref: Ref) {
    ref in m.products && SlotOf(ref, m.products[ref]) in m.listings ==>
      var p := m.products[ref];
      var l := m.listings[SlotOf(ref, p)];
      Shown(m, ref) && l.name == p.name && l.brand == p.brand && l.quantity == Total(m.stock, ref)
  }

  predicate PartsUnique(m: Market) {
    forall r, s :: r in m.products && s in m.products && r != s && r.tenant == s.tenant ==>
      m.products[r].part != m.products[s].part
  }

  predicate TextsFit(m: Market) {
    forall r :: r in m.products ==> |m.products[r].name| <= NAME_LIMIT && |m.products[r].brand| <= BRAND_LIMIT
  }

  predicate SellersKnown(m: Market) { forall s :: s in m.listings ==> s.tenant in m.clients }

  predicate Sound(m: Market) { PartsUnique(m) && TextsFit(m) && SellersKnown(m) }

  lemma StoreKeepsSound(m: Market, ref: Ref, p: Product)
    requires Sound(m) && Storable(m, ref, p)
    ensures Sound(m.(products := m.products[ref := p]))
  {
    var n := m.(products := m.products[ref := p]);
    forall r, s | r in n.products && s in n.products && r != s && r.tenant == s.tenant
      ensures n.products[r].part != n.products[s].part
    {
      assert r != ref ==> n.products[r] == m.products[r];
      assert s != ref ==> n.products[s] == m.products[s];
    }
  }

  lemma SyncKeepsSound(m: Market, ref: Ref, override: nat)
    requires Sound(m)
    ensures Sound(Synced(m, ref)) && (ref in m.products ==> Sound(SyncedNow(m, ref, override)))
  {
    assert ref in m.products && ref.tenant in m.clients ==> SlotOf(ref, m.products[ref]).tenant in m.clients;
  }

  lemma SoundKept(m: Market, e: Event)
    requires Sound(m)
    ensures Sound(Do(m, e))
  {
    match e
    case Recount(_, _) | AddRow(_, _) | DropRow(_, _) | Remove(_, _) | Delete(_, _) =>
    case Deliver(ref, again) => SyncKeepsSound(m.(syncs := Do(m, e).syncs), ref, 0);
    case Save(ref, p) =>
      if Storable(m, ref, p) {
        StoreKeepsSound(m, ref, p);
        SyncKeepsSound(m.(products := m.products[ref := p]), ref, 0);
      }
    case Approve(ref, price) =>
      if ref in m.products {
        var p := m.products[ref].(published := true);
        StoreKeepsSound(m, ref, p);
        SyncKeepsSound(m.(products := m.products[ref := p]), ref, price);
      }
  }

  lemma {:induction false} SoundAlways(m: Market, es: seq<Event>)
    requires Sound(m)
    ensures Sound(Run(m, es))
  {
    if es != [] {
      SoundAlways(m, es[..|es| - 1]);
      SoundKept(Run(m, es[..|es| - 1]), es[|es| - 1]);
    }
  }

  /** What a listing of the product has to show. */
  predicate SameView(m: Market, n: Market, ref: Ref) {
    && (ref in m.products <==> ref in n.products)
    && (ref in m.products ==> m.products[ref] == n.products[ref])
    && Total(m.stock, ref) == Total(n.stock, ref)
  }

  predicate Syncs(m: Market, e: Event, ref: Ref) {
    (e.Deliver? && e.ref == ref && ref in m.syncs) || (e.Approve? && e.ref == ref)
  }

  lemma SyncAgrees(m: Market, e: Event, ref: Ref)
    requires Sound(m) && Syncs(m, e, ref)
    ensures Agrees(Do(m, e), ref)
  {
  }

  /** Events about other products, other merchants and late or repeated messages do no harm. */
  lemma AgreementKept(m: Market, e: Event, ref: Ref)
    requires Sound(m) && Agrees(m, ref) && (SameView(m, Do(m, e), ref) || Syncs(m, e, ref))
    ensures Agrees(Do(m, e), ref)
  {
    if Syncs(m, e, ref) {
      SyncAgrees(m, e, ref);
    } else if e.Save? && e.ref != ref && Storable(m, e.ref, e.product) && ref in m.products {
      assert SlotOf(e.ref, e.product) != SlotOf(ref, m.products[ref]);
    } else if (e.Deliver? || e.Approve?) && e.ref in m.products && ref in m.products && e.ref != ref {
      assert SlotOf(e.ref, m.products[e.ref]) != SlotOf(ref, m.products[ref]);
    }
  }

  /** Some delivery of the product is followed by no further change of what it should show. */
  predicate Settled(m: Market, es: seq<Event>, ref: Ref) {
    es != [] &&
    var before := Run(m, es[..|es| - 1]);
    var e := es[|es| - 1];
    Syncs(before, e, ref) || (SameView(before, Do(before, e), ref) && Settled(m, es[..|es| - 1], ref))
  }

  lemma {:induction false} SettledAgrees(m: Market, es: seq<Event>, ref: Ref)
    requires Sound(m) && Settled(m, es, ref)
    ensures Agrees(Run(m, es), ref)
  {
    var before := Run(m, es[..|es| - 1]);
    var e := es[|es| - 1];
    SoundAlways(m, es[..|es| - 1]);
    if Syncs(before, e, ref) {
      SyncAgrees(before, e, ref);
    } else {
      SettledAgrees(m, es[..|es| - 1], ref);
      AgreementKept(before, e, ref);
    }
  }

  lemma {:induction false} TotalAfterUpdate(rows: seq<Row>, i: nat, row: Row, ref: Ref)
    requires i < |rows| && rows[i].product == row.product
    ensures Total(rows[i := row], ref) ==
            Total(rows, ref) + (if row.product == ref then row.quantity - rows[i].quantity else 0)
  {
    if i == 0 {
      assert rows[i := row][1..] == rows[1..];
    } else {
      assert rows[i := row][1..] == rows[1..][i - 1 := row];
      TotalAfterUpdate(rows[1..], i - 1, row, ref);
    }
  }

  /** Goods moved from branch to branch leave every listing right without any delivery. */
  lemma TransferNeedsNoDelivery(m: Market, i: nat, j: nat, moved: nat, synced: set<Ref>, ref: Ref)
    requires Sound(m) && Agrees(m, ref)
    requires i < |m.stock| && j < |m.stock| && i != j && m.stock[i].product == m.stock[j].product
    requires moved <= m.stock[i].quantity
    ensures Agrees(Do(m, Recount(Transferred(m.stock, i, j, moved), synced)), ref)
  {
    var taken := m.stock[i := m.stock[i].(quantity := m.stock[i].quantity - moved)];
    var given := taken[j := taken[j].(quantity := taken[j].quantity + moved)];
    TotalAfterUpdate(m.stock, i, taken[i], ref);
    TotalAfterUpdate(taken, j, given[j], ref);
    var e := Recount(Transferred(m.stock, i, j, moved), synced);
    assert Do(m, e).stock == given;
    assert SameView(m, Do(m, e), ref);
    AgreementKept(m, e, ref);
  }

  function Transferred(rows: seq<Row>, i: nat, j: nat, moved: nat): seq<nat>
    requires i < |rows| && j < |rows| && i != j && moved <= rows[i].quantity
  {
    seq(|rows|, k requires 0 <= k < |rows| =>
          if k == i then rows[k].quantity - moved
          else if k == j then rows[k].quantity + moved else rows[k].quantity)
  }

  // ---------- listings that nothing will take down ----------

  predicate OwnedBy(m: Market, slot: Slot, ref: Ref) { ref in m.products && SlotOf(ref, m.products[ref]) == slot }

  /** A product with a stock row stands behind the listing, or its removal is on its way. */
  ghost predicate Kept(m: Market, slot: Slot) {
    slot in m.removals || exists ref :: OwnedBy(m, slot, ref) && HasRow(m.stock, ref)
  }

  ghost predicate Tidy(m: Market) { forall slot :: slot in m.listings ==> Kept(m, slot) }

  /** The listed slot of a product, with no removal on its way. */
  predicate Exposed(m: Market, ref: Ref) {
    ref in m.products && SlotOf(ref, m.products[ref]) in m.listings && SlotOf(ref, m.products[ref]) !in m.removals
  }

  /** The step moves a listed product out of its slot; or the broker lost the removal of a deleted
      product or of its last stock row. */
  predicate LeavesBehind(m: Market, e: Event) {
    match e
    case Save(ref, p) => Storable(m, ref, p) && Exposed(m, ref) && SlotOf(ref, m.products[ref]) != SlotOf(ref, p)
    case Delete(ref, sent) => !sent && Exposed(m, ref)
    case DropRow(i, sent) => !sent && i < |m.stock| && Exposed(m, m.stock[i].product) &&
                             !HasRow(m.stock[..i] + m.stock[i + 1..], m.stock[i].product)
    case _ => false
  }

  /** While the broker takes messages, only a change of part number or condition does that: the removal
      of a deleted product is always on its way. */
  lemma OnlyRekeyingLeavesBehind(m: Market, e: Event)
    requires LeavesBehind(m, e) && (e.Delete? || e.DropRow? ==> e.sent)
    ensures e.Save? && e.ref in m.products &&
            (e.product.part != m.products[e.ref].part || e.product.condition != m.products[e.ref].condition)
  {
  }

  lemma {:induction false} TotalNeedsRow(rows: seq<Row>, ref: Ref)
    requires Total(rows, ref) > 0
    ensures HasRow(rows, ref)
  {
    if rows[0].product != ref {
      TotalNeedsRow(rows[1..], ref);
      var i :| 0 <= i < |rows[1..]| && rows[1..][i].product == ref;
      assert rows[i + 1].product == ref;
    }
  }

  lemma {:induction false} RowsWithout(rows: seq<Row>, gone: Ref, ref: Ref)
    ensures HasRow(WithoutRows(rows, gone), ref) <==> ref != gone && HasRow(rows, ref)
  {
    if rows != [] {
      RowsWithout(rows[1..], gone, ref);
      HasRowCons(rows[0], rows[1..], ref);
      assert rows == [rows[0]] + rows[1..];
      HasRowCons(rows[0], WithoutRows(rows[1..], gone), ref);
      assert [] + WithoutRows(rows[1..], gone) == WithoutRows(rows[1..], gone);
    }
  }

  lemma HasRowCons(row: Row, rows: seq<Row>, ref: Ref)
    ensures HasRow([row] + rows, ref) <==> row.product == ref || HasRow(rows, ref)
  {
    var all := [row] + rows;
    if row.product == ref { assert all[0].product == ref; }
    if i :| 0 <= i < |rows| && rows[i].product == ref { assert all[i + 1].product == ref; }
  }

  lemma RowsAfterDrop(rows: seq<Row>, i: nat, ref: Ref)
    requires i < |rows| && HasRow(rows, ref)
    ensures HasRow(rows[..i] + rows[i + 1..], ref) || rows[i].product == ref
  {
    var k :| 0 <= k < |rows| && rows[k].product == ref;
    var left := rows[..i] + rows[i + 1..];
    if k < i { assert left[k] == rows[k]; } else if k > i { assert left[k - 1] == rows[k]; }
  }

  /** What becomes of the rows behind a listing in a step that leaves the product in its slot. */
  lemma RowsStay(m: Market, e: Event, ref: Ref)
    requires HasRow(m.stock, ref) && !e.Delete? && !e.DropRow?
    ensures HasRow(Do(m, e).stock, ref)
  {
    var i :| 0 <= i < |m.stock| && m.stock[i].product == ref;
    assert Do(m, e).stock[i].product == ref;
  }

  lemma SlotKept(m: Market, e: Event, slot: Slot, ref: Ref)
    requires Sound(m) && !LeavesBehind(m, e) && slot in m.listings && slot in Do(m, e).listings
    requires slot !in m.removals && OwnedBy(m, slot, ref) && HasRow(m.stock, ref)
    ensures Kept(Do(m, e), slot)
  {
    var n := Do(m, e);
    if e.Delete? {
      RowsWithout(m.stock, e.ref, ref);
      if e.ref != ref { assert OwnedBy(n, slot, ref); }
    } else if e.DropRow? {
      if e.index < |m.stock| { RowsAfterDrop(m.stock, e.index, ref); }
      assert OwnedBy(n, slot, ref);
    } else {
      RowsStay(m, e, ref);
      assert OwnedBy(n, slot, ref);
    }
  }

  lemma StaysTidy(m: Market, e: Event)
    requires Sound(m) && Tidy(m) && !LeavesBehind(m, e)
    ensures Tidy(Do(m, e))
  {
    var n := Do(m, e);
    forall slot | slot in n.listings ensures Kept(n, slot) {
      if slot !in m.listings {
        OnlyApprovalLists(m, e, slot);
        TotalNeedsRow(m.stock, e.ref);
        assert OwnedBy(n, slot, e.ref);
      } else if slot !in m.removals {
        assert Kept(m, slot);
        var ref :| OwnedBy(m, slot, ref) && HasRow(m.stock, ref);
        SlotKept(m, e, slot, ref);
      }
    }
  }

  lemma SlotAbandoned(m: Market, e: Event, ref: Ref)
    requires Sound(m) && LeavesBehind(m, e)
    requires ref == if e.DropRow? then m.stock[e.index].product else e.ref
    ensures var slot := SlotOf(ref, m.products[ref]);
            slot in Do(m, e).listings && !Kept(Do(m, e), slot)
  {
    var slot, n := SlotOf(ref, m.products[ref]), Do(m, e);
    forall r | OwnedBy(n, slot, r) ensures !HasRow(n.stock, r) {
    }
  }

  /** Exactly when a step leaves a listing that nothing will take down. */
  lemma TidyExact(m: Market, e: Event)
    requires Sound(m) && Tidy(m)
    ensures Tidy(Do(m, e)) <==> !LeavesBehind(m, e)
  {
    if LeavesBehind(m, e) {
      SlotAbandoned(m, e, if e.DropRow? then m.stock[e.index].product else e.ref);
    } else {
      StaysTidy(m, e);
    }
  }

  ghost predicate NoneLeftBehind(m: Market, es: seq<Event>) {
    es == [] || (NoneLeftBehind(m, es[..|es| - 1]) && !LeavesBehind(Run(m, es[..|es| - 1]), es[|es| - 1]))
  }

  lemma {:induction false} TidyAlways(m: Market, es: seq<Event>)
    requires Sound(m) && Tidy(m) && NoneLeftBehind(m, es)
    ensures Tidy(Run(m, es))
  {
    if es != [] {
      TidyAlways(m, es[..|es| - 1]);
      SoundAlways(m, es[..|es| - 1]);
      StaysTidy(Run(m, es[..|es| - 1]), es[|es| - 1]);
    }
  }

  /** The listing shows the stock and the description of a product that may be shown. */
  predicate Mirrors(m: Market, slot: Slot, ref: Ref)
    requires slot in m.listings
  {
    && ref in m.products && SlotOf(ref, m.products[ref]) == slot && Shown(m, ref)
    && m.listings[slot].name == m.products[ref].name && m.listings[slot].brand == m.products[ref].brand
    && m.listings[slot].quantity == Total(m.stock, ref)
  }

  /** Whatever the order, duplication and lateness of the messages, deletions included: once every product
      has had a delivery after its last change, every listing mirrors its product or is about to be
      removed. */
  lemma Converges(m: Market, es: seq<Event>)
    requires Sound(m) && Tidy(m) && NoneLeftBehind(m, es)
    requires forall ref :: ref in Run(m, es).products ==> Settled(m, es, ref)
    ensures forall slot :: slot in Run(m, es).listings ==>
              slot in Run(m, es).removals || exists ref :: Mirrors(Run(m, es), slot, ref)
  {
    TidyAlways(m, es);
    var n := Run(m, es);
    forall slot | slot in n.listings ensures slot in n.removals || exists ref :: Mirrors(n, slot, ref) {
      assert Kept(n, slot);
      if slot !in n.removals {
        var ref :| OwnedBy(n, slot, ref) && HasRow(n.stock, ref);
        SettledAgrees(m, es, ref);
        assert Mirrors(n, slot, ref);
      }
    }
  }

  // ---------- what an empty queue says ----------

  /** The market is right about the product, or a message that will make it so is on its way. */
  predicate Covered(m: Market, ref: Ref) {
    || Agrees(m, ref) || ref in m.syncs
    || (ref in m.products && SlotOf(ref, m.products[ref]) in m.removals)
  }

  /** A listed product's stock or texts change, or it is deactivated, and no message about it is on its way:
      only a saved stock row sends a sync, never an edit of a published product. */
  predicate LeavesStale(m: Market, e: Event, ref: Ref) {
    Exposed(m, ref) && ref !in m.syncs &&
    match e
    case Recount(_, synced) => ref !in synced && MovesStock(m, e, ref)
    case AddRow(_, sent) => !sent && MovesStock(m, e, ref)
    case DropRow(_, sent) => !sent && MovesStock(m, e, ref)
    case Save(r, p) => r == ref && Storable(m, r, p) && p.published && Reworded(m.products[ref], p)
    case _ => false
  }

  predicate Reworded(was: Product, p: Product) {
    p.part == was.part && p.condition == was.condition && (!p.active || p.name != was.name || p.brand != was.brand)
  }

  lemma {:induction false} TotalAppend(rows: seq<Row>, row: Row, ref: Ref)
    ensures Total(rows + [row], ref) == Total(rows, ref) + if row.product == ref then row.quantity else 0
  {
    if rows == [] {
      assert rows + [row] == [row];
    } else {
      assert (rows + [row])[1..] == rows[1..] + [row];
      TotalAppend(rows[1..], row, ref);
    }
  }

  lemma {:induction false} TotalWithout(rows: seq<Row>, gone: Ref, ref: Ref)
    ensures Total(WithoutRows(rows, gone), ref) == if ref == gone then 0 else Total(rows, ref)
  {
    if rows != [] {
      TotalWithout(rows[1..], gone, ref);
      var rest := WithoutRows(rows[1..], gone);
      assert [] + rest == rest && ([rows[0]] + rest)[1..] == rest;
    }
  }

  /** The step moves the total stock of the product. */
  predicate MovesStock(m: Market, e: Event, ref: Ref) {
    match e
    case Recount(quantities, _) => Total(Recounted(m.stock, quantities), ref) != Total(m.stock, ref)
    case AddRow(row, _) => row.product == ref && row.quantity > 0
    case DropRow(i, _) => i < |m.stock| && m.stock[i].product == ref && m.stock[i].quantity > 0
    case Delete(r, _) => r == ref && Total(m.stock, ref) > 0
    case _ => false
  }

  lemma TotalAfter(m: Market, e: Event, ref: Ref)
    ensures Total(Do(m, e).stock, ref) != Total(m.stock, ref) <==> MovesStock(m, e, ref)
  {
    match e
    case AddRow(row, _) => TotalAppend(m.stock, row, ref);
    case DropRow(i, _) => if i < |m.stock| { TotalAfterDrop(m.stock, i, ref); }
    case Delete(r, _) => TotalWithout(m.stock, r, ref);
    case _ =>
  }

  /** A saved product's slot was its own, or is not listed, or its removal is on its way. */
  lemma NewSlot(m: Market, ref: Ref, p: Product)
    requires Tidy(m) && Storable(m, ref, p) && SlotOf(ref, p) in m.listings
    ensures SlotOf(ref, p) in m.removals || OwnedBy(m, SlotOf(ref, p), ref)
  {
    var slot := SlotOf(ref, p);
    assert Kept(m, slot);
    if slot !in m.removals {
      var r :| OwnedBy(m, slot, r) && HasRow(m.stock, r);
    }
  }

  lemma SaveCovers(m: Market, ref: Ref, p: Product)
    requires Sound(m) && Tidy(m) && Covered(m, ref) && Storable(m, ref, p)
    ensures Covered(Do(m, Save(ref, p)), ref) <==> !LeavesStale(m, Save(ref, p), ref)
  {
    if SlotOf(ref, p) in m.listings { NewSlot(m, ref, p); }
  }

  lemma CoverLasts(m: Market, e: Event, ref: Ref)
    requires Sound(m) && Covered(m, ref) && !LeavesStale(m, e, ref) && !(e.Save? && e.ref == ref)
    ensures Covered(Do(m, e), ref)
  {
    TotalAfter(m, e, ref);
    if Agrees(m, ref) && (SameView(m, Do(m, e), ref) || Syncs(m, e, ref)) { AgreementKept(m, e, ref); }
    if Syncs(m, e, ref) { SyncAgrees(m, e, ref); }
  }

  /** Exactly when a step leaves a product wrong in the market with no message to put it right. */
  lemma CoveredExact(m: Market, e: Event, ref: Ref)
    requires Sound(m) && Tidy(m) && Covered(m, ref)
    ensures Covered(Do(m, e), ref) <==> !LeavesStale(m, e, ref)
  {
    if e.Save? && e.ref == ref {
      if Storable(m, ref, e.product) { SaveCovers(m, ref, e.product); }
    } else if LeavesStale(m, e, ref) {
      TotalAfter(m, e, ref);
    } else {
      CoverLasts(m, e, ref);
    }
  }

  /** While the broker takes every message of a changed stock row, only an edit of a published product does
      that. */
  lemma OnlyEditsLeaveStale(m: Market, e: Event, ref: Ref)
    requires LeavesStale(m, e, ref) && (e.AddRow? || e.DropRow? ==> e.sent)
    requires e.Recount? && MovesStock(m, e, ref) ==> ref in e.synced
    ensures e.Save? && e.ref == ref && e.product.published && Reworded(m.products[ref], e.product)
  {
  }

  predicate OnlyMessages(es: seq<Event>) {
    forall i :: 0 <= i < |es| ==> es[i].Deliver? || es[i].Remove?
  }

  lemma {:induction false} MessagesOnly(m: Market, es: seq<Event>, ref: Ref)
    requires Sound(m) && OnlyMessages(es)
    ensures Covered(Run(m, es), ref) <==> Covered(m, ref)
  {
    if es != [] {
      MessagesOnly(m, es[..|es| - 1], ref);
      SoundAlways(m, es[..|es| - 1]);
      MessageCovers(Run(m, es[..|es| - 1]), es[|es| - 1], ref);
    }
  }

  lemma MessageCovers(m: Market, e: Event, ref: Ref)
    requires Sound(m) && (e.Deliver? || e.Remove?)
    ensures Covered(Do(m, e), ref) <==> Covered(m, ref)
  {
    if Covered(m, ref) {
      CoverLasts(m, e, ref);
    } else if e.Deliver? && e.ref in m.products && e.ref != ref {
      assert SlotOf(e.ref, m.products[e.ref]) != SlotOf(ref, m.products[ref]);
    }
  }

  predicate QueueEmpty(m: Market) { m.syncs == {} && m.removals == {} }

  /** Once the messages after a step have all been delivered, the market is right about the product if and
      only if the step was none of those: nothing but a further change repairs it. */
  lemma DrainedExact(m: Market, e: Event, es: seq<Event>, ref: Ref)
    requires Sound(m) && Tidy(m) && Covered(m, ref)
    requires OnlyMessages(es) && QueueEmpty(Run(Do(m, e), es))
    ensures Agrees(Run(Do(m, e), es), ref) <==> !LeavesStale(m, e, ref)
  {
    SoundKept(m, e);
    CoveredExact(m, e, ref);
    MessagesOnly(Do(m, e), es, ref);
  }

  /** A delivery takes its message off the queue unless it will come once more, and nothing else. */
  lemma DeliveryTakes(m: Market, ref: Ref, slot: Slot, again: bool)
    ensures var n := Do(m, Deliver(ref, again));
            n.syncs == (if again then m.syncs else m.syncs - {ref}) && n.removals == m.removals
    ensures var n := Do(m, Remove(slot, again));
            n.removals == (if again then m.removals else m.removals - {slot}) && n.syncs == m.syncs
  {
  }

  lemma {:induction false} RunCons(m: Market, e: Event, es: seq<Event>)
    ensures Run(m, [e] + es) == Run(Do(m, e), es)
  {
    if es == [] {
      assert [e] + es == [e] && [e][..0] == [];
    } else {
      var last := |es| - 1;
      RunCons(m, e, es[..last]);
      assert ([e] + es)[..|es|] == [e] + es[..last];
    }
  }

  lemma OneMoreMessage(e: Event, es: seq<Event>)
    requires (e.Deliver? || e.Remove?) && OnlyMessages(es)
    ensures OnlyMessages([e] + es)
  {
  }

  /** The queue can always be emptied by delivering what is in it. */
  lemma {:induction false} Drains(m: Market) returns (es: seq<Event>)
    ensures OnlyMessages(es) && QueueEmpty(Run(m, es))
    decreases |m.syncs| + |m.removals|
  {
    es := [];
    if m.syncs != {} {
      var ref :| ref in m.syncs;
      DeliveryTakes(m, ref, Slot(0, "", New), false);
      var more := Drains(Do(m, Deliver(ref, false)));
      RunCons(m, Deliver(ref, false), more);
      OneMoreMessage(Deliver(ref, false), more);
      es := [Deliver(ref, false)] + more;
    } else if m.removals != {} {
      var slot :| slot in m.removals;
      DeliveryTakes(m, Ref(0, 0), slot, false);
      var more := Drains(Do(m, Remove(slot, false)));
      RunCons(m, Remove(slot, false), more);
      OneMoreMessage(Remove(slot, false), more);
      es := [Remove(slot, false)] + more;
    }
  }

  predicate NeverStale(m: Market, es: seq<Event>, ref: Ref) {
    es == [] ||
    (NeverStale(m, es[..|es| - 1], ref) && !LeavesStale(Run(m, es[..|es| - 1]), es[|es| - 1], ref))
  }

  lemma {:induction false} CoveredAlways(m: Market, es: seq<Event>, ref: Ref)
    requires Sound(m) && Tidy(m) && NoneLeftBehind(m, es)
    requires Covered(m, ref) && NeverStale(m, es, ref)
    ensures Covered(Run(m, es), ref)
  {
    if es != [] {
      var before := Run(m, es[..|es| - 1]);
      CoveredAlways(m, es[..|es| - 1], ref);
      SoundAlways(m, es[..|es| - 1]);
      TidyAlways(m, es[..|es| - 1]);
      CoveredExact(before, es[|es| - 1], ref);
    }
  }

  /** Over every run without such steps an empty queue means that every listing mirrors its product. */
  lemma EmptyQueueMirrors(m: Market, es: seq<Event>)
    requires Sound(m) && Tidy(m) && NoneLeftBehind(m, es) && QueueEmpty(Run(m, es))
    requires forall ref :: ref in Run(m, es).products ==> Covered(m, ref) && NeverStale(m, es, ref)
    ensures forall slot :: slot in Run(m, es).listings ==> exists ref :: Mirrors(Run(m, es), slot, ref)
  {
    TidyAlways(m, es);
    var n := Run(m, es);
    forall slot | slot in n.listings ensures exists ref :: Mirrors(n, slot, ref) {
      assert Kept(n, slot);
      var ref :| OwnedBy(n, slot, ref) && HasRow(n.stock, ref);
      CoveredAlways(m, es, ref);
      assert Mirrors(n, slot, ref);
    }
  }

  /** Renaming a published product sends no message: the market keeps the old name. */
  lemma RenamedListing() returns (m: Market, e: Event)
    ensures Sound(m) && Tidy(m) && QueueEmpty(m) && e.Save? && Agrees(m, e.ref)
    ensures QueueEmpty(Do(m, e)) && Tidy(Do(m, e)) && !Agrees(Do(m, e), e.ref)
  {
    var ref, was := Ref(1, 1), Product("A", New, "pump", "BMW", 100, 90, true, true);
    var slot := SlotOf(ref, was);
    m := Market({1}, map[ref := was], [Row(ref, 1, 5)], map[slot := Listing("pump", "BMW", 100, 5)], {}, {});
    e := Save(ref, was.(name := "oil pump"));
    assert m.stock[0].product == ref && OwnedBy(m, slot, ref) && Total(m.stock[1..], ref) == 0;
    assert Agrees(m, ref);
    TidyExact(m, e);
    CoveredExact(m, e, ref);
  }

  // ---------- what is stored ----------

  /** A product is stored if and only if its texts fit and no other product of the merchant has its part
      number; otherwise nothing happens.  The merchants, the stock and the messages stay as they are. */
  lemma SaveExact(m: Market, ref: Ref, p: Product)
    ensures var n := Do(m, Save(ref, p));
            && n.clients == m.clients && n.stock == m.stock && n.syncs == m.syncs && n.removals == m.removals
            && if |p.name| <= 200 && |p.brand| <= 100 &&
                  forall r :: r in m.products && r.tenant == ref.tenant && m.products[r].part == p.part ==> r == ref
               then n.products == m.products[ref := p] else n == m
  {
  }

  // ---------- what puts a listing up and what takes it down ----------

  lemma OnlyApprovalLists(m: Market, e: Event, slot: Slot)
    requires slot in Do(m, e).listings
    ensures slot !in m.listings ==>
              e.Approve? && e.ref in m.products && slot == SlotOf(e.ref, m.products[e.ref]) &&
              m.products[e.ref].active && Total(m.stock, e.ref) > 0
    ensures !e.Approve? ==> slot in m.listings && Do(m, e).listings[slot].price == m.listings[slot].price
  {
    if e.Approve? && e.ref in m.products {
      assert SlotOf(e.ref, m.products[e.ref].(published := true)) == SlotOf(e.ref, m.products[e.ref]);
    }
  }

  /** The price an approval lists at: the approved one, or else the product's retail price, or else its
      wholesale price. */
  predicate PriceApproved(p: Product, price: nat, listed: nat) {
    && (price > 0 ==> listed == price)
    && (price == 0 && p.retail > 0 ==> listed == p.retail)
    && (price == 0 && p.retail == 0 ==> listed == p.wholesale)
  }

  /** Exactly what an approval lists: an active product in stock, published by it, at the approved price;
      any other product is taken down. */
  lemma ApprovalExact(m: Market, ref: Ref, price: nat)
    requires ref in m.products && ref.tenant in m.clients
    ensures var p, n := m.products[ref], Do(m, Approve(ref, price));
            var slot := SlotOf(ref, p);
            && n.products == m.products[ref := p.(published := true)] && n.stock == m.stock
            && (slot in n.listings <==> p.active && Total(m.stock, ref) > 0)
            && (slot in n.listings ==> PriceApproved(p, price, n.listings[slot].price))
            && forall s :: s != slot ==> (s in n.listings <==> s in m.listings) &&
                                         (s in n.listings ==> n.listings[s] == m.listings[s])
  {
  }

  /** The approved price lasts: over every later run without approvals a slot that is still listed is
      listed at it. */
  lemma ApprovedPriceLasts(m: Market, ref: Ref, price: nat, es: seq<Event>)
    requires ref in m.products && ref.tenant in m.clients && NoApprovals(es)
    ensures var p, n := m.products[ref], Run(Do(m, Approve(ref, price)), es);
            SlotOf(ref, p) in n.listings ==>
              p.active && Total(m.stock, ref) > 0 && PriceApproved(p, price, n.listings[SlotOf(ref, p)].price)
  {
    ApprovalExact(m, ref, price);
    SyncNeverAdds(Do(m, Approve(ref, price)), es);
  }

  predicate NoApprovals(es: seq<Event>) { forall i :: 0 <= i < |es| ==> !es[i].Approve? }

  /** Without an approval no run adds a listing or touches an approved price. */
  lemma {:induction false} SyncNeverAdds(m: Market, es: seq<Event>)
    requires NoApprovals(es)
    ensures forall slot :: slot in Run(m, es).listings ==>
              slot in m.listings && Run(m, es).listings[slot].price == m.listings[slot].price
  {
    if es != [] {
      var e := es[|es| - 1];
      SyncNeverAdds(m, es[..|es| - 1]);
      forall slot | slot in Run(m, es).listings
        ensures slot in m.listings && Run(m, es).listings[slot].price == m.listings[slot].price
      {
        OnlyApprovalLists(Run(m, es[..|es| - 1]), e, slot);
      }
    }
  }

  /** The events that take a listing down: a delivered removal, a delivery for its product while that may
      not be shown, and saving its product unpublished. */
  predicate TakesDown(m: Market, e: Event, slot: Slot) {
    match e
    case Remove(s, _) => s == slot && slot in m.removals
    case Deliver(ref, _) => ref in m.syncs && ref.tenant in m.clients && OwnedBy(m, slot, ref) && !Shown(m, ref)
    case Save(ref, p) => ref.tenant in m.clients && Storable(m, ref, p) && SlotOf(ref, p) == slot && !p.published
    case _ => false
  }

  predicate EverTakenDown(m: Market, es: seq<Event>, slot: Slot) {
    es != [] &&
    (EverTakenDown(m, es[..|es| - 1], slot) || TakesDown(Run(m, es[..|es| - 1]), es[|es| - 1], slot))
  }

  /** Over a run without approvals a slot is listed at the end if and only if it was at the start and
      nothing took it down: what is gone stays gone, whatever is delivered. */
  lemma {:induction false} ListedExact(m: Market, es: seq<Event>, slot: Slot)
    requires NoApprovals(es)
    ensures slot in Run(m, es).listings <==> slot in m.listings && !EverTakenDown(m, es, slot)
  {
    if es != [] {
      ListedExact(m, es[..|es| - 1], slot);
      ListedStep(Run(m, es[..|es| - 1]), es[|es| - 1], slot);
    }
  }

  lemma ListedStep(m: Market, e: Event, slot: Slot)
    requires !e.Approve?
    ensures slot in Do(m, e).listings <==> slot in m.listings && !TakesDown(m, e, slot)
  {
  }

  /** A deleted product's listing is gone, or its removal is still on its way. */
  lemma {:induction false} DeletedIsGone(m: Market, ref: Ref, es: seq<Event>)
    requires Sound(m) && Tidy(m) && ref in m.products && NoApprovals(es)
    ensures var slot, n := SlotOf(ref, m.products[ref]), Run(Do(m, Delete(ref, true)), es);
            slot in n.listings ==> slot in n.removals
  {
    var slot, start := SlotOf(ref, m.products[ref]), Do(m, Delete(ref, true));
    if es == [] {
      if slot in m.listings && slot !in m.removals {
        assert Kept(m, slot);
        var r :| OwnedBy(m, slot, r) && HasRow(m.stock, r);
        assert r == ref;
      }
    } else {
      DeletedIsGone(m, ref, es[..|es| - 1]);
      ListedStep(Run(start, es[..|es| - 1]), es[|es| - 1], slot);
    }
  }

  lemma {:induction false} TotalAfterDrop(rows: seq<Row>, i: nat, ref: Ref)
    requires i < |rows|
    ensures Total(rows[..i] + rows[i + 1..], ref) ==
            Total(rows, ref) - if rows[i].product == ref then rows[i].quantity else 0
  {
    var left := rows[..i] + rows[i + 1..];
    if i == 0 {
      assert left == rows[1..];
    } else {
      assert left[1..] == rows[1..][..i - 1] + rows[1..][i..];
      TotalAfterDrop(rows[1..], i - 1, ref);
    }
  }

  /** Deleting one branch's stock row takes down the whole listing of a product that other branches still
      hold, and no later delivery puts it back. */
  lemma OneBranchTakesTheListingDown(m: Market, i: nat, again: bool, es: seq<Event>)
    requires i < |m.stock| && m.stock[i].product in m.products && Shown(m, m.stock[i].product)
    requires m.stock[i].quantity < Total(m.stock, m.stock[i].product) && NoApprovals(es)
    ensures var ref := m.stock[i].product;
            var slot := SlotOf(ref, m.products[ref]);
            var n := Do(Do(m, DropRow(i, true)), Remove(slot, again));
            Shown(n, ref) && slot !in Run(n, es).listings
  {
    var ref := m.stock[i].product;
    var slot := SlotOf(ref, m.products[ref]);
    TotalAfterDrop(m.stock, i, ref);
    ListedExact(Do(Do(m, DropRow(i, true)), Remove(slot, again)), es, slot);
  }

  /** A run that leaves a listing behind: a listed product gets another part number, and its only listing
      then belongs to nobody. */
  lemma RekeyedListing() returns (m: Market, e: Event)
    ensures Sound(m) && Tidy(m) && LeavesBehind(m, e) && !Tidy(Do(m, e))
  {
    var ref, old_ := Ref(1, 1), Product("A", New, "pump", "BMW", 100, 90, true, true);
    var slot := SlotOf(ref, old_);
    m := Market({1}, map[ref := old_], [Row(ref, 1, 5)], map[slot := Listing("pump", "BMW", 100, 5)], {}, {});
    e := Save(ref, old_.(part := "B"));
    assert m.stock[0].product == ref && OwnedBy(m, slot, ref);
    TidyExact(m, e);
  }
}
