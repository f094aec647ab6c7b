/** The subscription store (src/db/postgres.py) as a state machine over its three tables.

    The SQL engine and the connection pool are not modelled; each function gives the relational
    meaning of one query. The schema is not part of the source, so the constraints the
    `ON CONFLICT` clauses rely on are stated as the invariant `Valid`:
      - `groups(id serial, chat_id)` with `chat_id` unique,
      - `shops(id serial, shop_name)` with `shop_name` unique,
      - `group_subscriptions(group_id, shop_name)` with the pair unique.
    Rows are kept in insertion order and queries return them in table order; SQL promises no
    order, so this is one of the orders the database may return. A `serial` column draws its
    next value before the conflict check, so an insert that hits `ON CONFLICT DO NOTHING`
    still consumes an id. */
module Postgres {
  import opened Wrappers

  datatype GroupRow = GroupRow(id: int, chatId: int)
  datatype ShopRow = ShopRow(id: int, name: string)
  datatype SubRow = SubRow(groupId: int, shopName: string)

  /** The three tables, and the next value of each serial id sequence. */
  datatype Db = Db(
    groups: seq<GroupRow>,
    shops: seq<ShopRow>,
    subs: seq<SubRow>,
    nextGroupId: int,
    nextShopId: int)

  /** A freshly created database. */
  const EmptyDb: Db := Db([], [], [], 1, 1)

  // ---------------------------------------------------------------------------------------
  // Schema invariant
  // ---------------------------------------------------------------------------------------

  predicate UniqueChats(groups: seq<GroupRow>) {
    forall i, j :: 0 <= i < j < |groups| ==> groups[i].chatId != groups[j].chatId
  }

  predicate GroupIdsIssued(groups: seq<GroupRow>, next: int) {
    && next >= 1
    && (forall i :: 0 <= i < |groups| ==> 1 <= groups[i].id < next)
    && (forall i, j :: 0 <= i < j < |groups| ==> groups[i].id != groups[j].id)
  }

  predicate UniqueShopNames(shops: seq<ShopRow>) {
    forall i, j :: 0 <= i < j < |shops| ==> shops[i].name != shops[j].name
  }

  predicate ShopIdsIssued(shops: seq<ShopRow>, next: int) {
    && next >= 1
    && (forall i :: 0 <= i < |shops| ==> 1 <= shops[i].id < next)
    && (forall i, j :: 0 <= i < j < |shops| ==> shops[i].id != shops[j].id)
  }

  predicate UniqueSubs(subs: seq<SubRow>) {
    forall i, j :: 0 <= i < j < |subs| ==> subs[i] != subs[j]
  }

  /** Every subscription row names the id of an existing group. */
  predicate SubsReferenceGroups(subs: seq<SubRow>, groups: seq<GroupRow>) {
    forall sub :: sub in subs ==> exists g :: g in groups && g.id == sub.groupId
  }

  predicate Valid(db: Db) {
    && UniqueChats(db.groups)
    && GroupIdsIssued(db.groups, db.nextGroupId)
    && UniqueShopNames(db.shops)
    && ShopIdsIssued(db.shops, db.nextShopId)
    && UniqueSubs(db.subs)
    && SubsReferenceGroups(db.subs, db.groups)
  }

  lemma EmptyDbValid()
    ensures Valid(EmptyDb)
  {
  }

  /** The visible contents: the three tables, not the id sequences. */
  predicate SameTables(a: Db, b: Db) {
    a.groups == b.groups && a.shops == b.shops && a.subs == b.subs
  }

  // ---------------------------------------------------------------------------------------
  // Lookups
  // ---------------------------------------------------------------------------------------

  predicate HasChat(groups: seq<GroupRow>, chat: int) {
    exists g :: g in groups && g.chatId == chat
  }

  predicate HasShop(shops: seq<ShopRow>, name: string) {
    exists s :: s in shops && s.name == name
  }

  /** `SELECT id FROM groups WHERE chat_id = $1` (NULL, here None, when there is no such row). */
  function GroupIdOf(groups: seq<GroupRow>, chat: int): (r: Option<int>)
    ensures r.Some? <==> HasChat(groups, chat)
    ensures r.Some? ==> GroupRow(r.value, chat) in groups
  {
    if |groups| == 0 then None
    else if groups[0].chatId == chat then Some(groups[0].id)
    else
      assert forall g :: g in groups <==> g == groups[0] || g in groups[1..];
      GroupIdOf(groups[1..], chat)
  }

  /** `SELECT id FROM shops WHERE shop_name = $1`. */
  function ShopIdOf(shops: seq<ShopRow>, name: string): (r: Option<int>)
    ensures r.Some? <==> HasShop(shops, name)
    ensures r.Some? ==> ShopRow(r.value, name) in shops
  {
    if |shops| == 0 then None
    else if shops[0].name == name then Some(shops[0].id)
    else ShopIdOf(shops[1..], name)
  }

  /** Under unique chat ids, the group row of a chat is the one `GroupIdOf` finds. */
  lemma GroupIdOfUnique(groups: seq<GroupRow>, chat: int, id: int)
    requires UniqueChats(groups)
    requires GroupRow(id, chat) in groups
    ensures GroupIdOf(groups, chat) == Some(id)
  {
    var found := GroupIdOf(groups, chat).value;
    var i :| 0 <= i < |groups| && groups[i] == GroupRow(id, chat);
    var j :| 0 <= j < |groups| && groups[j] == GroupRow(found, chat);
    assert i == j;
  }

  // ---------------------------------------------------------------------------------------
  // Transitions
  // ---------------------------------------------------------------------------------------

  /** `add_group`: `INSERT INTO groups (chat_id) ... ON CONFLICT (chat_id) DO NOTHING`. */
  function AddGroup(db: Db, chat: int): (r: Db)
    ensures HasChat(r.groups, chat)
    ensures r.shops == db.shops && r.subs == db.subs
    ensures forall c :: HasChat(r.groups, c) <==> HasChat(db.groups, c) || c == chat
    ensures HasChat(db.groups, chat) ==> SameTables(r, db)
    ensures Valid(db) ==> Valid(r)
  {
    var bumped := db.(nextGroupId := db.nextGroupId + 1);
    if HasChat(db.groups, chat) then bumped
    else
      var r := bumped.(groups := db.groups + [GroupRow(db.nextGroupId, chat)]);
      assert GroupRow(db.nextGroupId, chat) in r.groups;
      assert forall g :: g in db.groups ==> g in r.groups;
      r
  }

  /** `add_shop`: insert the name unless present, and return the id of its row. */
  function AddShop(db: Db, name: string): (r: (Db, int))
    ensures ShopIdOf(r.0.shops, name) == Some(r.1)
    ensures r.0.groups == db.groups && r.0.subs == db.subs
    ensures forall n :: HasShop(r.0.shops, n) <==> HasShop(db.shops, n) || n == name
    ensures HasShop(db.shops, name) ==> SameTables(r.0, db) && ShopIdOf(db.shops, name) == Some(r.1)
    ensures Valid(db) && !HasShop(db.shops, name) ==> forall s :: s in db.shops ==> s.id != r.1
    ensures Valid(db) ==> Valid(r.0)
  {
    var bumped := db.(nextShopId := db.nextShopId + 1);
    match ShopIdOf(db.shops, name)
    case Some(id) =>
      assert Valid(db) ==> Valid(bumped);
      (bumped, id)
    case None =>
      var r := bumped.(shops := db.shops + [ShopRow(db.nextShopId, name)]);
      ShopIdOfAppend(db.shops, ShopRow(db.nextShopId, name));
      assert forall s :: s in db.shops ==> s in r.shops;
      assert Valid(db) ==> Valid(r) by {
        if Valid(db) {
          AppendShopValid(db, name);
        }
      }
      (r, db.nextShopId)
  }

  /** Inserting a new name with the next serial id keeps the schema invariant. */
  lemma AppendShopValid(db: Db, name: string)
    requires Valid(db) && !HasShop(db.shops, name)
    ensures Valid(db.(shops := db.shops + [ShopRow(db.nextShopId, name)], nextShopId := db.nextShopId + 1))
  {
    var shops := db.shops + [ShopRow(db.nextShopId, name)];
    assert forall i :: 0 <= i < |db.shops| ==> shops[i] == db.shops[i];
    assert forall i :: 0 <= i < |db.shops| ==> shops[i] in db.shops;
  }

  /** Inserting a new pair whose group exists keeps the schema invariant. */
  lemma AppendSubValid(db: Db, row: SubRow)
    requires Valid(db) && row !in db.subs
    requires exists g :: g in db.groups && g.id == row.groupId
    ensures Valid(db.(subs := db.subs + [row]))
  {
    var subs := db.subs + [row];
    assert forall i :: 0 <= i < |db.subs| ==> subs[i] == db.subs[i];
    assert forall i :: 0 <= i < |db.subs| ==> subs[i] in db.subs;
    assert forall sub :: sub in subs ==> sub in db.subs || sub == row;
  }

  lemma {:induction false} ShopIdOfAppend(shops: seq<ShopRow>, row: ShopRow)
    requires !HasShop(shops, row.name)
    ensures ShopIdOf(shops + [row], row.name) == Some(row.id)
    decreases |shops|
  {
    if |shops| == 0 {
      assert shops + [row] == [row];
    } else {
      assert (shops + [row])[1..] == shops[1..] + [row];
      assert !HasShop(shops[1..], row.name) by {
        forall s | s in shops[1..] ensures s.name != row.name { assert s in shops; }
      }
      ShopIdOfAppend(shops[1..], row);
    }
  }

  /** `subscribe_group`: make sure the group and the shop exist, then insert the pair
      (`ON CONFLICT DO NOTHING`). */
  function Subscribe(db: Db, chat: int, shop: string): (r: Db)
    ensures HasChat(r.groups, chat) && HasShop(r.shops, shop)
    ensures forall c :: HasChat(r.groups, c) <==> HasChat(db.groups, c) || c == chat
    ensures forall n :: HasShop(r.shops, n) <==> HasShop(db.shops, n) || n == shop
    ensures Subscribed(r, chat, shop)
    ensures Valid(db) ==> Valid(r)
  {
    var withGroup := AddGroup(db, chat);
    var withShop := AddShop(withGroup, shop).0;
    var gid := GroupIdOf(withShop.groups, chat).value;
    var row := SubRow(gid, shop);
    if row in withShop.subs then withShop
    else
      var r := withShop.(subs := withShop.subs + [row]);
      assert row in r.subs;
      assert forall sub :: sub in withShop.subs ==> sub in r.subs;
      assert GroupRow(gid, chat) in withShop.groups;
      assert Valid(db) ==> Valid(r) by {
        if Valid(db) {
          AppendSubValid(withShop, row);
        }
      }
      r
  }

  /** `subscribe_group` twice is `subscribe_group` once, as far as the tables show. */
  lemma SubscribeIdempotent(db: Db, chat: int, shop: string)
    ensures SameTables(Subscribe(Subscribe(db, chat, shop), chat, shop), Subscribe(db, chat, shop))
  {
    var once := Subscribe(db, chat, shop);
    var withGroup := AddGroup(once, chat);
    var withShop := AddShop(withGroup, shop).0;
    assert SameTables(withShop, once);
    var gid := GroupIdOf(withShop.groups, chat).value;
    // the row the first call looked for is found again
    var g1 := AddGroup(db, chat);
    var s1 := AddShop(g1, shop).0;
    assert once.groups == s1.groups;
    assert SubRow(GroupIdOf(s1.groups, chat).value, shop) in once.subs;
    assert SubRow(gid, shop) in withShop.subs;
  }

  /** Remove every row equal to `SubRow(gid, shop)`. */
  function RemoveSub(subs: seq<SubRow>, gid: int, shop: string): (r: seq<SubRow>)
    ensures forall sub :: sub in r <==> sub in subs && sub != SubRow(gid, shop)
    ensures UniqueSubs(subs) ==> UniqueSubs(r)
  {
    if |subs| == 0 then []
    else
      var rest := RemoveSub(subs[1..], gid, shop);
      assert forall sub :: sub in subs <==> sub == subs[0] || sub in subs[1..];
      if subs[0] == SubRow(gid, shop) then rest
      else
        assert UniqueSubs(subs) ==> subs[0] !in subs[1..] by {
          if UniqueSubs(subs) {
            forall k | 0 <= k < |subs[1..]| ensures subs[1..][k] != subs[0] { assert subs[1..][k] == subs[k + 1]; }
          }
        }
        [subs[0]] + rest
  }

  /** `unsubscribe_group`: delete the pair; nothing happens when the chat has no group row
      (the subquery is NULL and matches no row). */
  function Unsubscribe(db: Db, chat: int, shop: string): (r: Db)
    ensures r.groups == db.groups && r.shops == db.shops
    ensures r.nextGroupId == db.nextGroupId && r.nextShopId == db.nextShopId
    ensures Valid(db) ==> Valid(r)
  {
    match GroupIdOf(db.groups, chat)
    case None => db
    case Some(gid) => db.(subs := RemoveSub(db.subs, gid, shop))
  }

  // ---------------------------------------------------------------------------------------
  // Queries
  // ---------------------------------------------------------------------------------------

  /** The relational meaning of a subscription: a subscription row whose group row has the chat id. */
  predicate Subscribed(db: Db, chat: int, shop: string) {
    exists sub, g :: sub in db.subs && g in db.groups && sub.groupId == g.id
                     && g.chatId == chat && sub.shopName == shop
  }

  /** One row of `group_subscriptions JOIN groups ON g.id = sub.group_id`. */
  datatype Joined = Joined(chatId: int, shopName: string)

  /** The joined rows for one subscription row, in groups-table order. */
  function JoinOne(sub: SubRow, groups: seq<GroupRow>): (r: seq<Joined>)
    ensures forall x :: x in r <==> exists g :: g in groups && g.id == sub.groupId
                                                && x == Joined(g.chatId, sub.shopName)
  {
    if |groups| == 0 then []
    else
      var rest := JoinOne(sub, groups[1..]);
      assert forall g :: g in groups <==> g == groups[0] || g in groups[1..];
      if groups[0].id == sub.groupId then [Joined(groups[0].chatId, sub.shopName)] + rest
      else rest
  }

  /** `group_subscriptions sub JOIN groups g ON g.id = sub.group_id` as a nested-loop join. */
  function JoinAll(subs: seq<SubRow>, groups: seq<GroupRow>): (r: seq<Joined>)
    ensures forall x :: x in r <==> exists sub :: sub in subs && x in JoinOne(sub, groups)
  {
    if |subs| == 0 then []
    else
      var r := JoinOne(subs[0], groups) + JoinAll(subs[1..], groups);
      assert forall sub :: sub in subs <==> sub == subs[0] || sub in subs[1..];
      forall x ensures x in r <==> exists sub :: sub in subs && x in JoinOne(sub, groups) {
        if x in r && x !in JoinOne(subs[0], groups) {
          var sub :| sub in subs[1..] && x in JoinOne(sub, groups);
          assert sub in subs;
        }
        if exists sub :: sub in subs && x in JoinOne(sub, groups) {
          var sub :| sub in subs && x in JoinOne(sub, groups);
          assert sub == subs[0] || sub in subs[1..];
        }
      }
      r
  }

  lemma JoinedIff(db: Db, chat: int, shop: string)
    ensures Joined(chat, shop) in JoinAll(db.subs, db.groups) <==> Subscribed(db, chat, shop)
  {
    if Subscribed(db, chat, shop) {
      var sub, g :| sub in db.subs && g in db.groups && sub.groupId == g.id
                    && g.chatId == chat && sub.shopName == shop;
      assert Joined(chat, shop) in JoinOne(sub, db.groups);
    }
  }

  /** `.. WHERE g.chat_id = $1`, projected on `sub.shop_name`. */
  function ShopsWhereChat(rows: seq<Joined>, chat: int): (r: seq<string>)
    ensures forall s :: s in r <==> Joined(chat, s) in rows
  {
    if |rows| == 0 then []
    else
      assert forall x :: x in rows <==> x == rows[0] || x in rows[1..];
      (if rows[0].chatId == chat then [rows[0].shopName] else []) + ShopsWhereChat(rows[1..], chat)
  }

  /** `.. WHERE sub.shop_name = $1`, projected on `g.chat_id`. */
  function ChatsWhereShop(rows: seq<Joined>, shop: string): (r: seq<int>)
    ensures forall c :: c in r <==> Joined(c, shop) in rows
  {
    if |rows| == 0 then []
    else
      assert forall x :: x in rows <==> x == rows[0] || x in rows[1..];
      (if rows[0].shopName == shop then [rows[0].chatId] else []) + ChatsWhereShop(rows[1..], shop)
  }

  /** `get_shops_for_group`. */
  function ShopsForGroup(db: Db, chat: int): (r: seq<string>)
    ensures forall s :: s in r <==> Subscribed(db, chat, s)
  {
    var r := ShopsWhereChat(JoinAll(db.subs, db.groups), chat);
    forall s ensures s in r <==> Subscribed(db, chat, s) { JoinedIff(db, chat, s); }
    r
  }

  /** `get_groups_for_shop`. */
  function GroupsForShop(db: Db, shop: string): (r: seq<int>)
    ensures forall c :: c in r <==> Subscribed(db, c, shop)
  {
    var r := ChatsWhereShop(JoinAll(db.subs, db.groups), shop);
    forall c ensures c in r <==> Subscribed(db, c, shop) { JoinedIff(db, c, shop); }
    r
  }

  /** `get_all_shops`: every name in the shops table, in table order. */
  function AllShops(db: Db): (r: seq<string>)
    ensures |r| == |db.shops|
    ensures forall i :: 0 <= i < |r| ==> r[i] == db.shops[i].name
    ensures forall n :: n in r <==> HasShop(db.shops, n)
  {
    var r := seq(|db.shops|, i requires 0 <= i < |db.shops| => db.shops[i].name);
    assert forall n :: HasShop(db.shops, n) ==> n in r by {
      forall n | HasShop(db.shops, n) ensures n in r {
        var s :| s in db.shops && s.name == n;
        var i :| 0 <= i < |db.shops| && db.shops[i] == s;
        assert r[i] == n;
      }
    }
    r
  }

  /** `get_all_group_ids`: every chat id in the groups table, in table order. */
  function AllGroupIds(db: Db): (r: seq<int>)
    ensures |r| == |db.groups|
    ensures forall i :: 0 <= i < |r| ==> r[i] == db.groups[i].chatId
    ensures forall c :: c in r <==> HasChat(db.groups, c)
  {
    var r := seq(|db.groups|, i requires 0 <= i < |db.groups| => db.groups[i].chatId);
    assert forall c :: HasChat(db.groups, c) ==> c in r by {
      forall c | HasChat(db.groups, c) ensures c in r {
        var g :| g in db.groups && g.chatId == c;
        var i :| 0 <= i < |db.groups| && db.groups[i] == g;
        assert r[i] == c;
      }
    }
    r
  }

  // ---------------------------------------------------------------------------------------
  // Properties relating several operations
  // ---------------------------------------------------------------------------------------

  /** A shop is listed for a group exactly when the group is listed for the shop. */
  lemma ShopsGroupsDual(db: Db, chat: int, shop: string)
    ensures shop in ShopsForGroup(db, chat) <==> chat in GroupsForShop(db, shop)
  {
  }

  /** `add_group` on a registered chat changes no table. */
  lemma AddGroupIdempotent(db: Db, chat: int)
    ensures SameTables(AddGroup(AddGroup(db, chat), chat), AddGroup(db, chat))
  {
  }

  /** `add_shop` twice returns the same id, and the second call changes no table. */
  lemma AddShopSameId(db: Db, name: string)
    ensures AddShop(AddShop(db, name).0, name).1 == AddShop(db, name).1
    ensures SameTables(AddShop(AddShop(db, name).0, name).0, AddShop(db, name).0)
  {
  }

  /** Group rows with the same id are the same row. */
  lemma GroupIdsDistinct(groups: seq<GroupRow>, g1: GroupRow, g2: GroupRow)
    requires forall i, j :: 0 <= i < j < |groups| ==> groups[i].id != groups[j].id
    requires g1 in groups && g2 in groups
    ensures g1.id == g2.id ==> g1 == g2
  {
    var i :| 0 <= i < |groups| && groups[i] == g1;
    var j :| 0 <= j < |groups| && groups[j] == g2;
    assert g1.id == g2.id ==> i == j;
  }

  /** Under unique chat ids, a group row of the chat is the one `GroupIdOf` finds. */
  lemma GroupIdOfRow(groups: seq<GroupRow>, chat: int, g: GroupRow)
    requires UniqueChats(groups)
    requires g in groups
    ensures g.chatId == chat ==> GroupIdOf(groups, chat) == Some(g.id)
  {
    if g.chatId == chat {
      GroupIdOfUnique(groups, chat, g.id);
    }
  }

  /** A new group row joins no existing subscription: its id was never issued before. */
  lemma AddGroupKeepsSubscriptions(db: Db, chat: int)
    requires Valid(db)
    ensures forall c, s :: Subscribed(AddGroup(db, chat), c, s) <==> Subscribed(db, c, s)
  {
    var r := AddGroup(db, chat);
    forall c, s | Subscribed(r, c, s) ensures Subscribed(db, c, s) {
      var sub, g :| sub in r.subs && g in r.groups && sub.groupId == g.id
                    && g.chatId == c && sub.shopName == s;
      var owner :| owner in db.groups && owner.id == sub.groupId;
      assert owner in r.groups;
      GroupIdsDistinct(r.groups, g, owner);
    }
  }

  /** Adding the row `(gid, shop)` for the chat's group subscribes exactly that pair in addition. */
  lemma AddSubRowEffect(db: Db, chat: int, shop: string, gid: int)
    requires GroupIdsIssued(db.groups, db.nextGroupId)
    requires GroupRow(gid, chat) in db.groups
    ensures forall c, s :: Subscribed(db.(subs := db.subs + [SubRow(gid, shop)]), c, s)
                           <==> Subscribed(db, c, s) || (c == chat && s == shop)
  {
    var row := SubRow(gid, shop);
    var r := db.(subs := db.subs + [row]);
    assert row in r.subs;
    forall c, s ensures Subscribed(r, c, s) <==> Subscribed(db, c, s) || (c == chat && s == shop) {
      if Subscribed(db, c, s) {
        var sub, g :| sub in db.subs && g in db.groups && sub.groupId == g.id
                      && g.chatId == c && sub.shopName == s;
        assert sub in r.subs;
      }
      if Subscribed(r, c, s) {
        var sub, g :| sub in r.subs && g in r.groups && sub.groupId == g.id
                      && g.chatId == c && sub.shopName == s;
        GroupIdsDistinct(db.groups, g, GroupRow(gid, chat));
        assert sub in db.subs || (c == chat && s == shop);
      }
    }
  }

  /** A subscription adds exactly its own pair; every other pair keeps its status. */
  lemma SubscribeEffect(db: Db, chat: int, shop: string)
    requires Valid(db)
    ensures forall c, s :: Subscribed(Subscribe(db, chat, shop), c, s)
                           <==> Subscribed(db, c, s) || (c == chat && s == shop)
  {
    var withGroup := AddGroup(db, chat);
    AddGroupKeepsSubscriptions(db, chat);
    var withShop := AddShop(withGroup, shop).0;
    assert forall c, s :: Subscribed(withShop, c, s) <==> Subscribed(withGroup, c, s);
    var gid := GroupIdOf(withShop.groups, chat).value;
    var row := SubRow(gid, shop);
    if row !in withShop.subs {
      AddSubRowEffect(withShop, chat, shop, gid);
    } else {
      assert Subscribed(withShop, chat, shop) by {
        assert GroupRow(gid, chat) in withShop.groups;
      }
    }
  }

  /** An unsubscription removes exactly its own pair; every other pair keeps its status. */
  lemma UnsubscribeEffect(db: Db, chat: int, shop: string)
    requires Valid(db)
    ensures forall c, s :: Subscribed(Unsubscribe(db, chat, shop), c, s)
                           <==> Subscribed(db, c, s) && !(c == chat && s == shop)
  {
    var r := Unsubscribe(db, chat, shop);
    forall c, s ensures Subscribed(r, c, s) <==> Subscribed(db, c, s) && !(c == chat && s == shop) {
      if Subscribed(db, c, s) && !(c == chat && s == shop) {
        var sub, g :| sub in db.subs && g in db.groups && sub.groupId == g.id
                      && g.chatId == c && sub.shopName == s;
        match GroupIdOf(db.groups, chat)
        case None =>
        case Some(gid) =>
          GroupIdsDistinct(db.groups, g, GroupRow(gid, chat));
          assert sub in r.subs;
      }
      if Subscribed(r, c, s) {
        var sub, g :| sub in r.subs && g in r.groups && sub.groupId == g.id
                      && g.chatId == c && sub.shopName == s;
        assert sub in db.subs;
        GroupIdOfRow(db.groups, chat, g);
      }
    }
  }

  /** Removing a pair that is not subscribed changes nothing at all. */
  lemma UnsubscribeAbsent(db: Db, chat: int, shop: string)
    requires !Subscribed(db, chat, shop)
    ensures Unsubscribe(db, chat, shop) == db
  {
    match GroupIdOf(db.groups, chat)
    case None =>
    case Some(gid) =>
      assert GroupRow(gid, chat) in db.groups;
      assert SubRow(gid, shop) !in db.subs;
      RemoveSubNoop(db.subs, gid, shop);
  }

  lemma {:induction false} RemoveSubNoop(subs: seq<SubRow>, gid: int, shop: string)
    requires SubRow(gid, shop) !in subs
    ensures RemoveSub(subs, gid, shop) == subs
    decreases |subs|
  {
    if |subs| > 0 {
      var tail := subs[1..];
      assert subs[0] in subs;
      assert SubRow(gid, shop) !in tail by { assert forall k :: 0 <= k < |tail| ==> tail[k] == subs[k + 1]; }
      RemoveSubNoop(tail, gid, shop);
      assert [subs[0]] + tail == subs;
    }
  }

  /** Registered groups stay listed whatever the other operations do, subscribed or not. */
  lemma GroupsPersist(db: Db, chat: int, other: int, shop: string)
    requires chat in AllGroupIds(db)
    ensures chat in AllGroupIds(AddGroup(db, other))
    ensures chat in AllGroupIds(AddShop(db, shop).0)
    ensures chat in AllGroupIds(Subscribe(db, other, shop))
    ensures chat in AllGroupIds(Unsubscribe(db, other, shop))
  {
  }

  /** A shop stays in the shops table after its subscriptions are removed. */
  lemma ShopsPersist(db: Db, chat: int, shop: string)
    ensures AllShops(Unsubscribe(db, chat, shop)) == AllShops(db)
  {
  }
}
