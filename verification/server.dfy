/** The server's in-memory player store and its three request handlers:
    register-or-identify by nickname, add one clear to a mode's counter, and
    the top-ten rankings. Each handler maps the store and a request to a reply
    and the next store. */
module Server {
  import opened Common
  import opened Sorting

  /** The player the rankings leave out. */
  const Guest: string := "ゲスト"
  /** The rankings show at most this many players. */
  const RankingSize: int := 10
  /** The first id handed out. */
  const FirstPlayerId: int := 1

  datatype Player = Player(id: int, nickname: string, countryClears: int, capitalClears: int)

  datatype Store = Store(players: seq<Player>, nextPlayerId: int)

  datatype RankEntry = RankEntry(rank: int, nickname: string, score: int)

  datatype Failure = MissingNickname | InvalidRequest | PlayerNotFound | InvalidRankingType

  datatype Body =
    | Error(failure: Failure)
    | PlayerInfo(player: Player)
    | NewScore(score: int)
    | Ranking(entries: seq<RankEntry>)

  datatype Reply = Reply(status: int, body: Body)

  /** A reply and the store the handler leaves behind. */
  datatype Handled = Handled(reply: Reply, store: Store)

  const EmptyStore: Store := Store([], FirstPlayerId)

  /** What holds of the store at all times: ids below the counter, positive,
      distinct; nicknames distinct; counters non-negative. */
  predicate Valid(st: Store)
  {
    && FirstPlayerId <= st.nextPlayerId
    && (forall i :: 0 <= i < |st.players| ==> FirstPlayerId <= st.players[i].id < st.nextPlayerId)
    && (forall i, j :: 0 <= i < j < |st.players| ==> st.players[i].id != st.players[j].id)
    && (forall i, j :: 0 <= i < j < |st.players| ==> st.players[i].nickname != st.players[j].nickname)
    && (forall i :: 0 <= i < |st.players| ==> st.players[i].countryClears >= 0 && st.players[i].capitalClears >= 0)
  }

  lemma EmptyStoreValid()
    ensures Valid(EmptyStore) && |EmptyStore.players| == 0
  {
  }

  /** `Array.prototype.find`, as the index of the first match. */
  function FindFirst(ps: seq<Player>, matches: Player -> bool): (r: Option<nat>)
    ensures r.None? <==> forall i :: 0 <= i < |ps| ==> !matches(ps[i])
    ensures r.Some? ==> r.value < |ps| && matches(ps[r.value])
    ensures r.Some? ==> forall i :: 0 <= i < r.value ==> !matches(ps[i])
  {
    if |ps| == 0 then None
    else if matches(ps[0]) then Some(0)
    else match FindFirst(ps[1..], matches)
      case None => None
      case Some(i) => Some(i + 1)
  }

  function HasNickname(name: string): Player -> bool
  {
    (p: Player) => p.nickname == name
  }

  function HasId(id: int): Player -> bool
  {
    (p: Player) => p.id == id
  }

  // ---------------------------------------------------------------------------
  // POST /api/player/register

  /** Registers a new nickname or identifies an existing one. A missing or
      empty nickname is refused with 400 and the store kept. */
  function Register(st: Store, nickname: Option<string>): (h: Handled)
    ensures nickname.None? || nickname.value == "" ==>
      h == Handled(Reply(400, Error(MissingNickname)), st)
    ensures nickname.Some? && nickname.value != "" ==>
      && h.reply.status == 200 && h.reply.body.PlayerInfo?
      && h.reply.body.player.nickname == nickname.value
      && h.reply.body.player in h.store.players
  {
    match nickname
    case None => Handled(Reply(400, Error(MissingNickname)), st)
    case Some(name) =>
      if name == "" then Handled(Reply(400, Error(MissingNickname)), st)
      else match FindFirst(st.players, HasNickname(name))
        case Some(i) => Handled(Reply(200, PlayerInfo(st.players[i])), st)
        case None =>
          var player := Player(st.nextPlayerId, name, 0, 0);
          Handled(Reply(200, PlayerInfo(player)), Store(st.players + [player], st.nextPlayerId + 1))
  }

  /** A known nickname is returned as stored and adds nobody; an unknown one
      appends a player with the next id and no clears, and moves the counter
      on by one. */
  lemma RegisterEffect(st: Store, name: string)
    requires name != ""
    ensures var h := Register(st, Some(name));
      && ((exists i :: 0 <= i < |st.players| && st.players[i].nickname == name) ==>
            h.store == st && h.reply.body.player in st.players)
      && ((forall i :: 0 <= i < |st.players| ==> st.players[i].nickname != name) ==>
            && h.reply.body.player == Player(st.nextPlayerId, name, 0, 0)
            && h.store == Store(st.players + [h.reply.body.player], st.nextPlayerId + 1))
  {
  }

  /** Registering keeps ids and nicknames unique. */
  lemma RegisterKeepsValid(st: Store, nickname: Option<string>)
    requires Valid(st)
    ensures Valid(Register(st, nickname).store)
  {
    var h := Register(st, nickname);
    if h.store != st {
      var ps := h.store.players;
      assert forall i :: 0 <= i < |st.players| ==> ps[i] == st.players[i];
    }
  }

  /** Registering the same nickname twice returns the same player and stores
      it once. */
  lemma RegisterTwice(st: Store, name: string)
    requires Valid(st) && name != ""
    ensures var h1 := Register(st, Some(name));
      var h2 := Register(h1.store, Some(name));
      h2.store == h1.store && h2.reply == h1.reply
  {
    var h1 := Register(st, Some(name));
    if forall i :: 0 <= i < |st.players| ==> st.players[i].nickname != name {
      var ps := h1.store.players;
      assert ps[|ps| - 1].nickname == name;
    } else {
      var i :| 0 <= i < |st.players| && st.players[i].nickname == name;
      var j := FindFirst(st.players, HasNickname(name)).value;
      assert j == i;
    }
  }

  // ---------------------------------------------------------------------------
  // POST /api/score/update

  function Clears(p: Player, m: Mode): int
  {
    match m
    case Country => p.countryClears
    case Capital => p.capitalClears
  }

  /** The player with one more clear in mode `m`. */
  function Bump(p: Player, m: Mode): (q: Player)
    ensures q.id == p.id && q.nickname == p.nickname
    ensures Clears(q, m) == Clears(p, m) + 1
    ensures forall m' :: m' != m ==> Clears(q, m') == Clears(p, m')
  {
    match m
    case Country => p.(countryClears := p.countryClears + 1)
    case Capital => p.(capitalClears := p.capitalClears + 1)
  }

  /** JavaScript's `!playerId` on a numeric id: a missing id or 0. */
  predicate IdMissing(playerId: Option<int>)
  {
    playerId.None? || playerId.value == 0
  }

  /** Adds one clear to the mode's counter of the player with the given id.
      A missing id or a mode other than country or capital is refused with 400,
      an unknown id with 404, and neither changes the store. */
  function UpdateScore(st: Store, playerId: Option<int>, mode: Option<string>): (h: Handled)
    ensures IdMissing(playerId) || mode.None? || ParseMode(mode.value).None? ==>
      h == Handled(Reply(400, Error(InvalidRequest)), st)
    ensures h.reply.status == 404 <==>
      && !IdMissing(playerId) && mode.Some? && ParseMode(mode.value).Some?
      && forall i :: 0 <= i < |st.players| ==> st.players[i].id != playerId.value
    ensures h.reply.status != 200 ==> h.store == st
    ensures h.reply.status == 200 ==>
      && playerId.Some? && mode.Some? && ParseMode(mode.value).Some?
      && h.reply.body.NewScore?
      && h.store.nextPlayerId == st.nextPlayerId
      && |h.store.players| == |st.players|
      && exists i :: && 0 <= i < |st.players| && st.players[i].id == playerId.value
                     && h.store.players == st.players[i := Bump(st.players[i], ParseMode(mode.value).value)]
                     && h.reply.body.score == Clears(st.players[i], ParseMode(mode.value).value) + 1
    ensures h.reply.status in {200, 400, 404}
  {
    if IdMissing(playerId) || mode.None? || ParseMode(mode.value).None? then
      Handled(Reply(400, Error(InvalidRequest)), st)
    else
      var m := ParseMode(mode.value).value;
      match FindFirst(st.players, HasId(playerId.value))
      case None => Handled(Reply(404, Error(PlayerNotFound)), st)
      case Some(i) =>
        var p := Bump(st.players[i], m);
        Handled(Reply(200, NewScore(Clears(p, m))), Store(st.players[i := p], st.nextPlayerId))
  }

  /** In a valid store a successful update touches only the addressed player,
      only in the chosen mode, by exactly one, and reports the new count. */
  lemma UpdateScoreEffect(st: Store, id: int, m: Mode)
    requires Valid(st)
    requires exists i :: 0 <= i < |st.players| && st.players[i].id == id
    ensures var h := UpdateScore(st, Some(id), Some(ModeName(m)));
      && h.reply.status == 200
      && forall i :: 0 <= i < |st.players| ==>
           && h.store.players[i].id == st.players[i].id
           && h.store.players[i].nickname == st.players[i].nickname
           && (st.players[i].id == id ==>
                 && Clears(h.store.players[i], m) == Clears(st.players[i], m) + 1
                 && h.reply.body.score == Clears(h.store.players[i], m))
           && (st.players[i].id != id ==> h.store.players[i] == st.players[i])
           && (forall m' :: m' != m ==> Clears(h.store.players[i], m') == Clears(st.players[i], m'))
  {
    ParseModeName(m);
    var j := FindFirst(st.players, HasId(id)).value;
    forall i | 0 <= i < |st.players| && st.players[i].id == id
      ensures i == j
    {

    }
  }

  /** Every stored player can be credited: ids are never the rejected 0. */
  lemma StoredIdsAccepted(st: Store, i: int, m: Mode)
    requires Valid(st) && 0 <= i < |st.players|
    ensures UpdateScore(st, Some(st.players[i].id), Some(ModeName(m))).reply.status == 200
  {
    ParseModeName(m);
  }

  /** Updating keeps the store valid. */
  lemma UpdateScoreKeepsValid(st: Store, playerId: Option<int>, mode: Option<string>)
    requires Valid(st)
    ensures Valid(UpdateScore(st, playerId, mode).store)
  {
  }

  /** The update is not idempotent: two identical successful calls add two. */
  lemma UpdateScoreTwice(st: Store, i: int, m: Mode)
    requires Valid(st) && 0 <= i < |st.players|
    ensures var id := st.players[i].id;
      var h1 := UpdateScore(st, Some(id), Some(ModeName(m)));
      var h2 := UpdateScore(h1.store, Some(id), Some(ModeName(m)));
      && h2.reply.status == 200
      && Clears(h2.store.players[i], m) == Clears(st.players[i], m) + 2
      && h2.reply.body.score == Clears(st.players[i], m) + 2
  {
    var id := st.players[i].id;
    UpdateScoreEffect(st, id, m);
    var h1 := UpdateScore(st, Some(id), Some(ModeName(m)));
    UpdateScoreKeepsValid(st, Some(id), Some(ModeName(m)));
    assert h1.store.players[i].id == id;
    UpdateScoreEffect(h1.store, id, m);
  }

  // ---------------------------------------------------------------------------
  // GET /api/rankings/:type

  datatype RankingKind = Total | ByMode(mode: Mode)

  /** The `:type` values the rankings handler accepts. */
  predicate IsRankingType(t: string)
  {
    t == "total" || t == "country" || t == "capital"
  }

  /** Reads a ranking type: "total" ranks by the sum of both counters, a mode
      name by that mode's counter. */
  function ParseKind(t: string): (k: Option<RankingKind>)
    ensures k.Some? <==> IsRankingType(t)
    ensures t == "total" ==> k == Some(Total)
    ensures ParseMode(t).Some? ==> k == Some(ByMode(ParseMode(t).value))
  {
    if t == "total" then Some(Total)
    else match ParseMode(t)
      case Some(m) => Some(ByMode(m))
      case None => None
  }

  /** The score a ranking of kind `k` shows for a player. */
  function Score(p: Player, k: RankingKind): int
  {
    match k
    case Total => p.countryClears + p.capitalClears
    case ByMode(m) => Clears(p, m)
  }

  /** The sort key of a ranking of kind `k`. */
  function ScoreKey(k: RankingKind): Player -> int
  {
    (p: Player) => Score(p, k)
  }

  /** The stored players other than the guest, in store order. */
  function NonGuests(ps: seq<Player>): (r: seq<Player>)
    ensures |r| <= |ps|
    ensures forall i :: 0 <= i < |r| ==> r[i].nickname != Guest
  {
    if |ps| == 0 then []
    else (if ps[0].nickname != Guest then [ps[0]] else []) + NonGuests(ps[1..])
  }

  /** The filter keeps exactly the non-guest players and adds nobody. */
  lemma {:induction false} NonGuestsMembers(ps: seq<Player>)
    ensures forall p :: p in NonGuests(ps) <==> p in ps && p.nickname != Guest
    ensures multiset(NonGuests(ps)) <= multiset(ps)
    decreases |ps|
  {
    if |ps| > 0 {
      NonGuestsMembers(ps[1..]);
      assert ps == [ps[0]] + ps[1..];
    }
  }

  /** The filter keeps store order: filtering a concatenation is
      concatenating the filtered parts. */
  lemma {:induction false} NonGuestsAppend(a: seq<Player>, b: seq<Player>)
    ensures NonGuests(a + b) == NonGuests(a) + NonGuests(b)
    decreases |a|
  {
    if |a| > 0 {
      assert (a + b)[1..] == a[1..] + b;
      NonGuestsAppend(a[1..], b);
    } else {
      assert a + b == b;
    }
  }

  function Min(a: int, b: int): int
  {
    if a < b then a else b
  }

  /** The players a ranking of kind `k` lists: the non-guests sorted by
      descending score, ties in store order, cut to the first ten. */
  function Ranked(st: Store, k: RankingKind): seq<Player>
  {
    var sorted := SortDesc(NonGuests(st.players), ScoreKey(k));
    sorted[..Min(RankingSize, |sorted|)]
  }

  /** The listed players are at most ten non-guests from the store, in
      descending score, and no non-guest left out scores more than anyone
      listed. */
  lemma RankedIsTop(st: Store, k: RankingKind)
    ensures var r := Ranked(st, k);
      && |r| == Min(RankingSize, |NonGuests(st.players)|)
      && (forall i :: 0 <= i < |r| ==> r[i] in st.players && r[i].nickname != Guest)
      && (forall i, j :: 0 <= i < j < |r| ==> Score(r[i], k) >= Score(r[j], k))
      && (forall p :: p in st.players && p.nickname != Guest && p !in r ==>
            forall i :: 0 <= i < |r| ==> Score(p, k) <= Score(r[i], k))
  {
    RankedAreNonGuests(st, k);
    RankedSorted(st, k);
    LeftOutScoreLess(st, k);
  }

  lemma RankedAreNonGuests(st: Store, k: RankingKind)
    ensures |Ranked(st, k)| == Min(RankingSize, |NonGuests(st.players)|)
    ensures forall i :: 0 <= i < |Ranked(st, k)| ==>
      Ranked(st, k)[i] in st.players && Ranked(st, k)[i].nickname != Guest
  {
    var ng := NonGuests(st.players);
    var sorted := SortDesc(ng, ScoreKey(k));
    var r := Ranked(st, k);
    NonGuestsMembers(st.players);
    forall i | 0 <= i < |r|
      ensures r[i] in st.players && r[i].nickname != Guest
    {
      assert r[i] == sorted[i];
      assert sorted[i] in multiset(sorted);
      assert r[i] in ng;
    }
  }

  lemma RankedSorted(st: Store, k: RankingKind)
    ensures forall i, j :: 0 <= i < j < |Ranked(st, k)| ==>
      Score(Ranked(st, k)[i], k) >= Score(Ranked(st, k)[j], k)
  {
    var sorted := SortDesc(NonGuests(st.players), ScoreKey(k));
    SortDescSorted(NonGuests(st.players), ScoreKey(k));
    var r := Ranked(st, k);
    forall i, j | 0 <= i < j < |r|
      ensures Score(r[i], k) >= Score(r[j], k)
    {
      assert r[i] == sorted[i] && r[j] == sorted[j];
      assert ScoreKey(k)(sorted[i]) >= ScoreKey(k)(sorted[j]);
    }
  }

  lemma LeftOutScoreLess(st: Store, k: RankingKind)
    ensures forall p :: p in st.players && p.nickname != Guest && p !in Ranked(st, k) ==>
      forall i :: 0 <= i < |Ranked(st, k)| ==> Score(p, k) <= Score(Ranked(st, k)[i], k)
  {
    var ng := NonGuests(st.players);
    var sorted := SortDesc(ng, ScoreKey(k));
    var n := Min(RankingSize, |sorted|);
    SortDescSorted(ng, ScoreKey(k));
    NonGuestsMembers(st.players);
    forall p | p in st.players && p.nickname != Guest && p !in Ranked(st, k)
      ensures forall i :: 0 <= i < n ==> ScoreKey(k)(p) <= ScoreKey(k)(sorted[i])
    {
      assert p in multiset(ng);
      assert p in multiset(sorted);
      BelowCut(sorted, ScoreKey(k), n, p);
    }
  }

  function Entries(ranked: seq<Player>, k: RankingKind): (es: seq<RankEntry>)
    ensures |es| == |ranked|
    ensures forall i :: 0 <= i < |es| ==>
      es[i] == RankEntry(i + 1, ranked[i].nickname, Score(ranked[i], k))
  {
    seq(|ranked|, i requires 0 <= i < |ranked| =>
      RankEntry(i + 1, ranked[i].nickname, Score(ranked[i], k)))
  }

  /** The rankings handler. An unknown type is refused with 400; the store is
      never changed. */
  function Rankings(st: Store, t: string): (h: Handled)
    ensures h.store == st
    ensures !IsRankingType(t) <==> h.reply == Reply(400, Error(InvalidRankingType))
    ensures IsRankingType(t) ==> h.reply.status == 200 && h.reply.body.Ranking?
  {
    match ParseKind(t)
    case None => Handled(Reply(400, Error(InvalidRankingType)), st)
    case Some(k) => Handled(Reply(200, Ranking(Entries(Ranked(st, k), k))), st)
  }

  /** What a successful ranking promises: at most ten entries ranked 1..n in
      order, no guest, scores never increasing down the list, a total being
      the sum of both counters, every entry a stored player, and every
      non-guest left out scoring no more than anyone listed. */
  lemma RankingsCorrect(st: Store, t: string)
    requires IsRankingType(t)
    ensures var k := ParseKind(t).value;
      var es := Rankings(st, t).reply.body.entries;
      var ranked := Ranked(st, k);
      && |es| <= RankingSize
      && |es| == Min(RankingSize, |NonGuests(st.players)|)
      && (forall i :: 0 <= i < |es| ==> es[i].rank == i + 1)
      && (forall i :: 0 <= i < |es| ==> es[i].nickname != Guest)
      && (forall i, j :: 0 <= i < j < |es| ==> es[i].score >= es[j].score)
      && (forall i :: 0 <= i < |es| ==> ranked[i] in st.players && es[i].nickname == ranked[i].nickname)
      && (t == "total" ==> forall i :: 0 <= i < |es| ==>
            es[i].score == ranked[i].countryClears + ranked[i].capitalClears)
      && (t != "total" ==> forall i :: 0 <= i < |es| ==>
            es[i].score == Clears(ranked[i], ParseMode(t).value))
      && (forall p :: p in st.players && p.nickname != Guest && p !in ranked ==>
            forall i :: 0 <= i < |es| ==> Score(p, k) <= es[i].score)
  {
    RankedIsTop(st, ParseKind(t).value);
  }

  /** Players with equal scores are listed in the order they registered: the
      sorted players with a given score are exactly the store's non-guest
      players with that score, in store order. */
  lemma RankingTiesKeepStoreOrder(st: Store, k: RankingKind, score: int)
    ensures WithKey(SortDesc(NonGuests(st.players), ScoreKey(k)), ScoreKey(k), score)
         == NonGuests(WithKey(st.players, ScoreKey(k), score))
  {
    SortDescStable(NonGuests(st.players), ScoreKey(k), score);
    FiltersCommute(st.players, ScoreKey(k), score);
  }

  lemma {:induction false} FiltersCommute(ps: seq<Player>, key: Player -> int, score: int)
    ensures WithKey(NonGuests(ps), key, score) == NonGuests(WithKey(ps, key, score))
    decreases |ps|
  {
    if |ps| > 0 {
      FiltersCommute(ps[1..], key, score);
      var head := if ps[0].nickname != Guest then [ps[0]] else [];
      WithKeyAppend(head, NonGuests(ps[1..]), key, score);
      var kept := if key(ps[0]) == score then [ps[0]] else [];
      NonGuestsAppend(kept, WithKey(ps[1..], key, score));
    }
  }
}
