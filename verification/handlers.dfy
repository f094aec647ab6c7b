/** The chat command handlers (src/bot/handlers.py) as pure functions: each command yields the
    store effect it performs and the reply text it sends. The chat platform is not modelled;
    `args` is the text after the command (`message.get_args()`). */
module Handlers {
  import opened Text
  import opened Postgres

  /** The store call a handler makes before replying. */
  datatype Effect =
    | NoEffect
    | RegisterGroup(chat: int)              // add_group
    | Follow(chat: int, shop: string)       // subscribe_group
    | Unfollow(chat: int, shop: string)     // unsubscribe_group

  datatype Reply = Reply(effect: Effect, text: string)

  const StartText: string :=
    "👋 Chào! Dùng:\n"
    + "/follow <shop> — nhóm theo dõi shop\n"
    + "/unfollow <shop> — nhóm bỏ theo dõi\n"
    + "/list — xem shop nhóm đang theo dõi"
  const FollowUsage: string := "❗ Vui lòng cung cấp tên shop. Ví dụ: /follow myshop"
  const UnfollowUsage: string := "❗ Vui lòng cung cấp tên shop. Ví dụ: /unfollow myshop"
  const FollowedPrefix: string := "✅ Nhóm đã theo dõi *"
  const UnfollowedPrefix: string := "❌ Nhóm đã bỏ theo dõi *"
  const NothingFollowed: string := "📭 Nhóm chưa theo dõi shop nào."
  const ListHeader: string := "📦 Shop nhóm đang theo dõi:"
  const Bullet: string := "• "

  /** The store after a handler's effect. */
  function Apply(db: Db, effect: Effect): Db {
    match effect
    case NoEffect => db
    case RegisterGroup(chat) => AddGroup(db, chat)
    case Follow(chat, shop) => Subscribe(db, chat, shop)
    case Unfollow(chat, shop) => Unsubscribe(db, chat, shop)
  }

  /** `cmd_start`: register the chat's group, then send the usage text. */
  function CmdStart(chat: int): (r: Reply)
    ensures r.effect == RegisterGroup(chat)
  {
    Reply(RegisterGroup(chat), StartText)
  }

  /** `cmd_follow`: a blank argument gets the usage error; otherwise the chat follows the
      stripped name and the reply names it. */
  function CmdFollow(chat: int, args: string): (r: Reply)
    ensures r.effect == NoEffect <==> AllSpace(args)
    ensures AllSpace(args) ==> r.text == FollowUsage
    ensures !AllSpace(args) ==> r.effect == Follow(chat, Strip(args))
                                && OccursAt(r.text, Strip(args), |FollowedPrefix|)
  {
    var shop := Strip(args);
    if shop == [] then Reply(NoEffect, FollowUsage)
    else
      var text := FollowedPrefix + shop + "*";
      assert text[|FollowedPrefix|..|FollowedPrefix| + |shop|] == shop;
      Reply(Follow(chat, shop), text)
  }

  /** `cmd_unfollow`: a blank argument gets the usage error; otherwise the chat stops following
      the stripped name and the reply names it. */
  function CmdUnfollow(chat: int, args: string): (r: Reply)
    ensures r.effect == NoEffect <==> AllSpace(args)
    ensures AllSpace(args) ==> r.text == UnfollowUsage
    ensures !AllSpace(args) ==> r.effect == Unfollow(chat, Strip(args))
                                && OccursAt(r.text, Strip(args), |UnfollowedPrefix|)
  {
    var shop := Strip(args);
    if shop == [] then Reply(NoEffect, UnfollowUsage)
    else
      var text := UnfollowedPrefix + shop + "*";
      assert text[|UnfollowedPrefix|..|UnfollowedPrefix| + |shop|] == shop;
      Reply(Unfollow(chat, shop), text)
  }

  /** One `• s` line per shop, in order. */
  function Bullets(shops: seq<string>): (r: seq<string>)
    ensures |r| == |shops|
    ensures forall i :: 0 <= i < |r| ==> r[i] == Bullet + shops[i]
  {
    seq(|shops|, i requires 0 <= i < |shops| => Bullet + shops[i])
  }

  /** The text `cmd_list` sends for a list of shops. */
  function ListText(shops: seq<string>): (text: string)
    ensures shops == [] <==> text == NothingFollowed
  {
    if shops == [] then NothingFollowed
    else
      var text := ListHeader + "\n" + Join(Bullets(shops), '\n');
      assert text[0] != NothingFollowed[0];
      text
  }

  /** `cmd_list`: the reply for the chat's current shops (the handler makes no store change). */
  function CmdList(db: Db, chat: int): (r: Reply)
    ensures r.effect == NoEffect
    ensures r.text == NothingFollowed <==> forall s :: !Subscribed(db, chat, s)
  {
    var shops := ShopsForGroup(db, chat);
    assert shops != [] ==> Subscribed(db, chat, shops[0]);
    Reply(NoEffect, ListText(shops))
  }

  /** A non-empty list reply reads, line by line, as the header followed by one bullet per shop
      in order (for shop names without line breaks). */
  lemma ListTextLines(shops: seq<string>)
    requires shops != []
    requires forall i :: 0 <= i < |shops| ==> '\n' !in shops[i]
    ensures Split(ListText(shops), '\n') == [ListHeader] + Bullets(shops)
  {
    var bullets := Bullets(shops);
    forall k | 0 <= k < |bullets| ensures '\n' !in bullets[k] {
      assert bullets[k] == Bullet + shops[k];
    }
    SplitJoin(bullets, '\n');
    assert ListHeader + "\n" + Join(bullets, '\n') == ListHeader + ['\n'] + Join(bullets, '\n');
    SplitFront(ListHeader, Join(bullets, '\n'), '\n');
  }

  // ---------------------------------------------------------------------------------------
  // Handlers composed with the store
  // ---------------------------------------------------------------------------------------

  /** After `/start` the chat's group is registered, and nothing else changes. */
  lemma StartRegisters(db: Db, chat: int)
    ensures chat in AllGroupIds(Apply(db, CmdStart(chat).effect))
    ensures forall c, s :: Valid(db) ==>
      (Subscribed(Apply(db, CmdStart(chat).effect), c, s) <==> Subscribed(db, c, s))
  {
    if Valid(db) {
      AddGroupKeepsSubscriptions(db, chat);
    }
  }

  /** A blank `/follow` or `/unfollow` leaves the store exactly as it was. */
  lemma BlankArgumentsChangeNothing(db: Db, chat: int, args: string)
    requires AllSpace(args)
    ensures Apply(db, CmdFollow(chat, args).effect) == db
    ensures Apply(db, CmdUnfollow(chat, args).effect) == db
  {
  }

  /** After `/follow name`, `/list` shows the stripped name, and only that pair was added. */
  lemma FollowThenListed(db: Db, chat: int, args: string)
    requires Valid(db)
    requires !AllSpace(args)
    ensures var after := Apply(db, CmdFollow(chat, args).effect);
      && Strip(args) in ShopsForGroup(after, chat)
      && CmdList(after, chat).text != NothingFollowed
      && (forall c, s :: Subscribed(after, c, s) <==> Subscribed(db, c, s) || (c == chat && s == Strip(args)))
  {
    SubscribeEffect(db, chat, Strip(args));
  }

  /** After `/unfollow name`, the stripped name is no longer listed, and only that pair was removed. */
  lemma UnfollowThenNotListed(db: Db, chat: int, args: string)
    requires Valid(db)
    requires !AllSpace(args)
    ensures var after := Apply(db, CmdUnfollow(chat, args).effect);
      && Strip(args) !in ShopsForGroup(after, chat)
      && (forall c, s :: Subscribed(after, c, s) <==> Subscribed(db, c, s) && !(c == chat && s == Strip(args)))
      && AllShops(after) == AllShops(db)
  {
    UnsubscribeEffect(db, chat, Strip(args));
  }
}
