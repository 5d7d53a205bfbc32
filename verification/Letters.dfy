/** The rules of the typing game, on the letters on the screen as values, newest first.
    Positions and speeds are exact reals. */
module Letters {
  const SCR_HEIGHT: nat := 200
  const SCR_WIDTH: nat := 320
  const HZ: nat := 100
  const CHARACTER_PER_SECOND: nat := 5
  const UPDATE_PER_SECOND: nat := 100
  const FALL: real := 0.1
  const RISE: real := -3.0
  /** How far down a letter can be and still be on the screen. */
  const BOTTOM: real := 192.1
  /** Ticks between two new letters. */
  const PERIOD: nat := HZ / CHARACTER_PER_SECOND

  datatype Letter = Letter(x: real, y: int, text: int, v: real)

  /** What create_new_letter makes of three numbers from rand(): the integer division leaves nothing
      of the second, so every letter falls at the same speed. */
  function NewLetter(r1: nat, r2: nat, r3: nat): (l: Letter)
    ensures l.x == 0.0 && l.v == FALL && 0 <= l.text < 26 && (r3 - l.text) % 26 == 0
    ensures l.y % 8 == 0 && 8 <= l.y <= 304 && (r1 - (l.y / 8 - 1)) % 38 == 0
  {
    Letter(0.0, r1 % (SCR_WIDTH / 8 - 2) * 8 + 8, r3 % 26, (r2 % 1000 / 5000) as real + FALL)
  }

  /** Every letter can appear in every one of the 38 columns, always at the top and falling by 0.1. */
  lemma EveryLetter(c: nat, column: nat, r2: nat)
    requires c < 26 && column < 38
    ensures NewLetter(column, r2, c) == Letter(0.0, 8 * column + 8, c, 0.1)
  {}

  function Advanced(l: Letter): Letter { l.(x := l.x + l.v) }
  predicate OffScreen(l: Letter) { l.x < 0.0 || l.x + 7.9 > SCR_HEIGHT as real }

  function Picked<T>(s: seq<T>, at: seq<nat>): (r: seq<T>)
    requires forall j :: 0 <= j < |at| ==> at[j] < |s|
    ensures |r| == |at| && forall j :: 0 <= j < |r| ==> r[j] == s[at[j]]
  {
    seq(|at|, j requires 0 <= j < |at| => s[at[j]])
  }

  ghost predicate Ascending(at: seq<nat>) { forall i, j :: 0 <= i < j < |at| ==> at[i] < at[j] }

  /** The letters that are still on the screen after one more step: all of them, in their order. */
  function Staying(ls: seq<Letter>): (at: seq<nat>)
    ensures Ascending(at) && |at| <= |ls|
    ensures forall j :: 0 <= j < |at| ==> at[j] < |ls|
    ensures forall i: nat :: i < |ls| ==> (i in at <==> !OffScreen(Advanced(ls[i])))
  {
    if ls == [] then [] else
      var last := |ls| - 1;
      Staying(ls[..last]) + if OffScreen(Advanced(ls[last])) then [] else [last]
  }

  function Survivors(ls: seq<Letter>): (r: seq<Letter>)
    ensures |r| == |Staying(ls)| && forall j :: 0 <= j < |r| ==> r[j] == Advanced(ls[Staying(ls)[j]])
  {
    seq(|Staying(ls)|, j requires 0 <= j < |Staying(ls)| => Advanced(ls[Staying(ls)[j]]))
  }

  /** Letters that leave through the top, and through the bottom. */
  function FlownOff(ls: seq<Letter>): nat {
    if ls == [] then 0 else
      var l := Advanced(ls[|ls| - 1]);
      FlownOff(ls[..|ls| - 1]) + if OffScreen(l) && l.x < 0.0 then 1 else 0
  }

  function FallenOff(ls: seq<Letter>): nat {
    if ls == [] then 0 else
      var l := Advanced(ls[|ls| - 1]);
      FallenOff(ls[..|ls| - 1]) + if OffScreen(l) && !(l.x < 0.0) then 1 else 0
  }

  lemma {:induction false} NobodyLost(ls: seq<Letter>)
    ensures |Survivors(ls)| + FlownOff(ls) + FallenOff(ls) == |ls|
  {
    if ls != [] { NobodyLost(ls[..|ls| - 1]); }
  }

  // ---------- shooting ----------

  /** A letter the next key press of its kind may hit. */
  predicate Falling(l: Letter) { l.v > 0.0 && l.x > -100.0 }

  predicate CanHit(l: Letter, keys: seq<bool>)
    requires |keys| == 26 && 0 <= l.text < 26
  {
    Falling(l) && keys[l.text]
  }

  ghost predicate Texts(ls: seq<Letter>) { forall i :: 0 <= i < |ls| ==> 0 <= ls[i].text < 26 }

  /** i is lower than j, or as low and newer. */
  predicate Before(ls: seq<Letter>, i: nat, j: nat)
    requires i < |ls| && j < |ls|
  {
    ls[i].x > ls[j].x || (ls[i].x == ls[j].x && i < j)
  }

  /** The letter one call of update_keypress turns round. */
  ghost predicate Target(ls: seq<Letter>, keys: seq<bool>, i: nat)
    requires |keys| == 26 && Texts(ls)
  {
    i < |ls| && CanHit(ls[i], keys) && forall j: nat :: j < |ls| && j != i && CanHit(ls[j], keys) ==> Before(ls, i, j)
  }

  ghost predicate NothingToHit(ls: seq<Letter>, keys: seq<bool>)
    requires |keys| == 26 && Texts(ls)
  {
    forall i :: 0 <= i < |ls| ==> !CanHit(ls[i], keys)
  }

  function Shot(l: Letter): Letter { l.(v := RISE) }

  /** The lowest falling letter with its text. */
  ghost predicate LowestOfItsKind(ls: seq<Letter>, i: nat)
    requires i < |ls|
  {
    && Falling(ls[i])
    && forall j: nat ::
         j < |ls| && j != i && Falling(ls[j]) && ls[j].text == ls[i].text ==> Before(ls, i, j)
  }

  /** The state after all the pressed keys were used up, key by key and without any order between keys. */
  ghost function VolleyAt(ls: seq<Letter>, keys: seq<bool>, i: nat): Letter
    requires |keys| == 26 && Texts(ls) && i < |ls|
  {
    if keys[ls[i].text] && LowestOfItsKind(ls, i) then Shot(ls[i]) else ls[i]
  }

  ghost function Volley(ls: seq<Letter>, keys: seq<bool>): (r: seq<Letter>)
    requires |keys| == 26 && Texts(ls)
    ensures |r| == |ls| && forall i :: 0 <= i < |r| ==> r[i] == VolleyAt(ls, keys, i)
  {
    seq(|ls|, i requires 0 <= i < |ls| => VolleyAt(ls, keys, i))
  }

  ghost predicate AnyFalling(ls: seq<Letter>, c: int) { exists i: nat :: i < |ls| && ls[i].text == c && Falling(ls[i]) }

  ghost function KeysLeft(ls: seq<Letter>, keys: seq<bool>): (r: seq<bool>)
    requires |keys| == 26
    ensures |r| == 26 && forall c :: 0 <= c < 26 ==> r[c] == (keys[c] && !AnyFalling(ls, c))
  {
    seq(26, c requires 0 <= c < 26 => keys[c] && !AnyFalling(ls, c))
  }

  /** One shot is one step towards the volley. */
  lemma ShotKeepsVolley(ls: seq<Letter>, keys: seq<bool>, i: nat)
    requires |keys| == 26 && Texts(ls) && Target(ls, keys, i)
    ensures var ls', keys' := ls[i := Shot(ls[i])], keys[ls[i].text := false];
            Texts(ls') && Volley(ls', keys') == Volley(ls, keys) && KeysLeft(ls', keys') == KeysLeft(ls, keys)
  {
    var ls', keys' := ls[i := Shot(ls[i])], keys[ls[i].text := false];
    forall j: nat | j < |ls| ensures VolleyAt(ls', keys', j) == VolleyAt(ls, keys, j) {
      ShotKeepsVolleyAt(ls, keys, i, j);
    }
    assert Volley(ls', keys') == Volley(ls, keys);
    forall c | 0 <= c < 26 ensures KeysLeft(ls', keys')[c] == KeysLeft(ls, keys)[c] {
      if c != ls[i].text {
        assert forall j: nat :: j < |ls| ==> ls'[j].text == c ==> ls'[j] == ls[j];
        assert AnyFalling(ls', c) <==> AnyFalling(ls, c);
      } else {
        assert AnyFalling(ls, c);
      }
    }
  }

  lemma ShotKeepsVolleyAt(ls: seq<Letter>, keys: seq<bool>, i: nat, j: nat)
    requires |keys| == 26 && Texts(ls) && Target(ls, keys, i) && j < |ls|
    ensures var ls', keys' := ls[i := Shot(ls[i])], keys[ls[i].text := false];
            Texts(ls') && VolleyAt(ls', keys', j) == VolleyAt(ls, keys, j)
  {
    var ls' := ls[i := Shot(ls[i])];
    if ls[j].text == ls[i].text {
      if j == i {
        assert LowestOfItsKind(ls, i);
      } else if Falling(ls[j]) {
        assert Before(ls, i, j) && !Before(ls, j, i);
        assert !LowestOfItsKind(ls, j);
      }
    } else {
      forall m: nat | m < |ls| && ls[m].text == ls[j].text ensures ls'[m] == ls[m] {}
      assert LowestOfItsKind(ls', j) <==> LowestOfItsKind(ls, j) by {
        forall m: nat | m < |ls| && m != j && ls[m].text == ls[j].text ensures Before(ls', j, m) == Before(ls, j, m) {}
      }
    }
  }

  /** With nothing left to hit the volley is over. */
  lemma VolleyOver(ls: seq<Letter>, keys: seq<bool>)
    requires |keys| == 26 && Texts(ls) && NothingToHit(ls, keys)
    ensures Volley(ls, keys) == ls && KeysLeft(ls, keys) == keys
  {
    forall i: nat | i < |ls| ensures VolleyAt(ls, keys, i) == ls[i] {}
    forall c | 0 <= c < 26 && keys[c] ensures !AnyFalling(ls, c) {
      forall i: nat | i < |ls| && ls[i].text == c ensures !Falling(ls[i]) {
        assert !CanHit(ls[i], keys);
      }
    }
  }

  // ---------- what the volley is for letters in flight ----------

  /** Letter i shows c and falls. */
  ghost predicate FallingAs(ls: seq<Letter>, i: int, c: int) { 0 <= i < |ls| && ls[i].text == c && ls[i].v == 0.1 }

  /** It is lower than every other such letter. */
  ghost predicate LowestAs(ls: seq<Letter>, i: int, c: int) {
    FallingAs(ls, i, c) && forall j :: FallingAs(ls, j, c) && j != i ==> ls[j].x < ls[i].x
  }

  /** What pressed key c does: the lowest falling letter c rises at 3 a tick and the key is released;
      without such a letter, or if c is not down, nothing happens to c. */
  ghost predicate AnsweredKey(ls: seq<Letter>, keys: seq<bool>, ls': seq<Letter>, keys': seq<bool>, c: int)
    requires |keys| == |keys'| == 26 && |ls| == |ls'| && 0 <= c < 26
  {
    if keys[c] && exists i :: FallingAs(ls, i, c) then
      && !keys'[c]
      && exists i :: LowestAs(ls, i, c) && ls'[i] == Letter(ls[i].x, ls[i].y, c, -3.0)
                     && forall j :: 0 <= j < |ls| && j != i && ls[j].text == c ==> ls'[j] == ls[j]
    else
      keys'[c] == keys[c] && forall j :: 0 <= j < |ls| && ls[j].text == c ==> ls'[j] == ls[j]
  }

  ghost predicate Answered(ls: seq<Letter>, keys: seq<bool>, ls': seq<Letter>, keys': seq<bool>) {
    && |keys| == |keys'| == 26 && |ls| == |ls'|
    && forall c :: 0 <= c < 26 ==> AnsweredKey(ls, keys, ls', keys', c)
  }

  function KeysDown(keys: seq<bool>): (n: nat)
    ensures n <= |keys|
  {
    if keys == [] then 0 else KeysDown(keys[..|keys| - 1]) + if keys[|keys| - 1] then 1 else 0
  }

  lemma {:induction false} KeyReleased(keys: seq<bool>, c: nat)
    requires c < |keys| && keys[c]
    ensures KeysDown(keys[c := false]) == KeysDown(keys) - 1
  {
    var last := |keys| - 1;
    if c == last {
      assert keys[c := false][..last] == keys[..last];
    } else {
      assert keys[c := false][..last] == keys[..last][c := false];
      KeyReleased(keys[..last], c);
    }
  }

  // ---------- time ----------

  /** Letters made in the first `now` ticks: one at tick 0 and every PERIOD ticks from there. */
  function Made(now: nat): nat { (now + PERIOD - 1) / PERIOD }

  lemma MadeSteps(now: nat)
    ensures Made(now + 1) == if now % PERIOD == 0 then Made(now) + 1 else Made(now)
    ensures now % PERIOD == 0 ==> now == PERIOD * Made(now)
  {
    var q, r := now / 20, now % 20;
    if r == 0 {
      Periods(now + 19, q, 19);
      Periods(now + 20, q + 1, 0);
    } else {
      Periods(now + 19, q + 1, r - 1);
      Periods(now + 20, q + 1, r);
    }
  }

  lemma Periods(n: nat, q: nat, r: nat)
    requires n == 20 * q + r && r < 20
    ensures n / 20 == q
  {}

  /** What `age` updates can have made of a letter: it fell all the time, or was turned round and
      has been rising since. */
  ghost predicate Flying(l: Letter, age: int) {
    && 0 <= l.text < 26 && 0 <= age && 0.0 <= l.x <= BOTTOM
    && (l.v == FALL || l.v == RISE)
    && (l.v == FALL ==> l.x == age as real / 10.0)
    && (l.v == RISE ==> exists s: nat :: RoseFrom(l, age, s))
  }

  /** It fell for the first s updates, and has risen in every one since. */
  ghost predicate RoseFrom(l: Letter, age: int, s: nat) {
    s <= age && s <= 1921 && 10.0 * l.x == (s - 30 * (age - s)) as real
  }

  lemma ShortLife(l: Letter, age: int)
    requires Flying(l, age)
    ensures age <= 1985
  {
    if l.v == RISE {
      var s: nat :| RoseFrom(l, age, s);
      assert (s - 30 * (age - s)) as real >= 0.0;
    }
  }

  /** The letters on the screen before update number `now`, each with its number in the order of creation. */
  ghost predicate InFlight(ls: seq<Letter>, serials: seq<nat>, now: nat, created: nat) {
    && |ls| == |serials|
    && (forall i, j :: 0 <= i < j < |serials| ==> serials[i] > serials[j])
    && (forall i :: 0 <= i < |ls| ==> serials[i] < created && PERIOD * serials[i] <= now)
    && (forall i :: 0 <= i < |ls| ==> Flying(ls[i], now - PERIOD * serials[i]))
  }

  lemma {:induction false} SerialSpan(serials: seq<nat>)
    requires serials != [] && forall i, j :: 0 <= i < j < |serials| ==> serials[i] > serials[j]
    ensures serials[0] - serials[|serials| - 1] >= |serials| - 1
  {
    if |serials| > 1 {
      var front := serials[..|serials| - 1];
      SerialSpan(front);
      assert serials[0] == front[0] && serials[|serials| - 1] < front[|front| - 1];
    }
  }

  /** No letter lasts longer than 1985 updates, so at most 100 are ever on the screen. */
  lemma FewLetters(ls: seq<Letter>, serials: seq<nat>, now: nat, created: nat)
    requires InFlight(ls, serials, now, created)
    ensures |ls| <= 100
  {
    hide Flying;
    if ls != [] {
      SerialSpan(serials);
      var last := |ls| - 1;
      ShortLife(ls[last], now - PERIOD * serials[last]);
      assert PERIOD * serials[0] <= now;
    }
  }

  /** Of the letters that fall the oldest is the lowest. */
  lemma OldestIsLowest(ls: seq<Letter>, serials: seq<nat>, now: nat, created: nat, i: nat, j: nat)
    requires InFlight(ls, serials, now, created) && i < |ls| && j < |ls| && ls[i].v == FALL && ls[j].v == FALL
    ensures Before(ls, i, j) <==> i > j
  {
    FallHeight(ls, serials, now, created, i);
    FallHeight(ls, serials, now, created, j);
    assert i > j ==> serials[i] < serials[j];
    assert i < j ==> serials[i] > serials[j];
    hide InFlight;
  }

  lemma FallHeight(ls: seq<Letter>, serials: seq<nat>, now: nat, created: nat, i: nat)
    requires InFlight(ls, serials, now, created) && i < |ls| && ls[i].v == FALL
    ensures 10.0 * ls[i].x == (now - 20 * serials[i]) as real
  {
    assert Flying(ls[i], now - PERIOD * serials[i]);
  }

  lemma BornInFlight(ls: seq<Letter>, serials: seq<nat>, now: nat, created: nat, r1: nat, r2: nat, r3: nat)
    requires InFlight(ls, serials, now, created) && now == PERIOD * created
    ensures InFlight([NewLetter(r1, r2, r3)] + ls, [created] + serials, now, created + 1)
  {
    var ls', serials' := [NewLetter(r1, r2, r3)] + ls, [created] + serials;
    forall i | 0 <= i < |ls'|
      ensures serials'[i] < created + 1 && PERIOD * serials'[i] <= now && Flying(ls'[i], now - PERIOD * serials'[i])
    {
      if i > 0 { assert ls'[i] == ls[i - 1] && serials'[i] == serials[i - 1]; }
    }
  }

  lemma AdvancedFlying(l: Letter, age: int)
    requires Flying(l, age) && !OffScreen(Advanced(l))
    ensures Flying(Advanced(l), age + 1)
  {
    if l.v == RISE {
      var s: nat :| RoseFrom(l, age, s);
      assert RoseFrom(Advanced(l), age + 1, s);
    }
  }

  lemma ShotFlying(l: Letter, age: int)
    requires Flying(l, age) && Falling(l)
    ensures Flying(Shot(l), age)
  {
    assert RoseFrom(Shot(l), age, age);
  }

  lemma SurvivorsInFlight(ls: seq<Letter>, serials: seq<nat>, now: nat, created: nat)
    requires InFlight(ls, serials, now, created)
    ensures InFlight(Survivors(ls), Picked(serials, Staying(ls)), now + 1, created)
  {
    hide Staying, Survivors, Picked, Flying, Advanced, OffScreen;
    var at, ls' := Staying(ls), Survivors(ls);
    var serials' := Picked(serials, at);
    forall i | 0 <= i < |ls'|
      ensures serials'[i] < created && PERIOD * serials'[i] <= now && Flying(ls'[i], now + 1 - PERIOD * serials'[i])
    {
      SurvivorInFlight(ls, serials, now, created, i);
    }
  }

  lemma SurvivorInFlight(ls: seq<Letter>, serials: seq<nat>, now: nat, created: nat, i: nat)
    requires InFlight(ls, serials, now, created) && i < |Staying(ls)|
    ensures var s := Picked(serials, Staying(ls))[i];
            s < created && PERIOD * s <= now && Flying(Survivors(ls)[i], now + 1 - PERIOD * s)
  {
    hide Staying, Survivors, Picked, Flying, Advanced, OffScreen;
    var j := Staying(ls)[i];
    assert j in Staying(ls);
    AdvancedFlying(ls[j], now - PERIOD * serials[j]);
  }

  lemma VolleyInFlight(ls: seq<Letter>, keys: seq<bool>, serials: seq<nat>, now: nat, created: nat)
    requires InFlight(ls, serials, now, created) && |keys| == 26 && Texts(ls)
    ensures InFlight(Volley(ls, keys), serials, now, created)
  {
    forall i: nat | i < |ls| ensures Flying(Volley(ls, keys)[i], now - PERIOD * serials[i]) {
      assert Flying(ls[i], now - PERIOD * serials[i]);
      assert Volley(ls, keys)[i] == VolleyAt(ls, keys, i);
      if keys[ls[i].text] && LowestOfItsKind(ls, i) { ShotFlying(ls[i], now - PERIOD * serials[i]); }
    }
  }

  // ---------- exactly which letters are hit, and which leave ----------

  lemma FallingInFlight(ls: seq<Letter>, serials: seq<nat>, now: nat, created: nat, i: nat)
    requires InFlight(ls, serials, now, created) && i < |ls|
    ensures Falling(ls[i]) <==> ls[i].v == 0.1
    ensures ls[i].v == 0.1 || ls[i].v == -3.0
    ensures 0 <= ls[i].text < 26
  {
    assert Flying(ls[i], now - PERIOD * serials[i]);
  }

  /** Of the letters in flight every pressed key hits the lowest falling one of its kind, and no other. */
  lemma VolleyAnswers(ls: seq<Letter>, serials: seq<nat>, now: nat, created: nat, keys: seq<bool>)
    requires InFlight(ls, serials, now, created) && |keys| == 26 && Texts(ls)
    ensures Answered(ls, keys, Volley(ls, keys), KeysLeft(ls, keys))
  {
    hide InFlight, Falling, LowestOfItsKind;
    forall c | 0 <= c < 26 ensures AnsweredKey(ls, keys, Volley(ls, keys), KeysLeft(ls, keys), c) {
      KeyAnswers(ls, serials, now, created, keys, c);
    }
  }

  lemma VolleyAnswersAll(ls: seq<Letter>, keys: seq<bool>)
    requires |keys| == 26 && Texts(ls)
    ensures forall serials, now, created :: InFlight(ls, serials, now, created) ==>
              Answered(ls, keys, Volley(ls, keys), KeysLeft(ls, keys))
  {
    forall serials, now, created | InFlight(ls, serials, now, created)
      ensures Answered(ls, keys, Volley(ls, keys), KeysLeft(ls, keys))
    {
      VolleyAnswers(ls, serials, now, created, keys);
    }
  }

  ghost predicate NoTies(ls: seq<Letter>) {
    forall i, j :: 0 <= i < j < |ls| && ls[i].v == 0.1 && ls[j].v == 0.1 ==> ls[i].x != ls[j].x
  }

  lemma FallersApart(ls: seq<Letter>, serials: seq<nat>, now: nat, created: nat)
    requires InFlight(ls, serials, now, created)
    ensures NoTies(ls)
  {
    forall i, j | 0 <= i < j < |ls| && ls[i].v == 0.1 && ls[j].v == 0.1 ensures ls[i].x != ls[j].x {
      FallHeight(ls, serials, now, created, i);
      FallHeight(ls, serials, now, created, j);
    }
  }

  lemma {:induction false} LowestFalling(ls: seq<Letter>, c: int, k: nat) returns (i: nat)
    requires NoTies(ls) && FallingAs(ls, k, c)
    ensures LowestAs(ls, i, c)
    decreases |ls|
  {
    var last := |ls| - 1;
    var front := ls[..last];
    assert forall j :: FallingAs(front, j, c) ==> FallingAs(ls, j, c) && front[j] == ls[j];
    assert forall j :: FallingAs(ls, j, c) && j < last ==> FallingAs(front, j, c);
    if exists j: nat :: FallingAs(front, j, c) {
      var j: nat :| FallingAs(front, j, c);
      i := LowestFalling(front, c, j);
      if FallingAs(ls, last, c) && ls[last].x > ls[i].x { i := last; }
    } else {
      i := k;
    }
  }

  lemma KeyAnswers(ls: seq<Letter>, serials: seq<nat>, now: nat, created: nat, keys: seq<bool>, c: nat)
    requires InFlight(ls, serials, now, created) && |keys| == 26 && Texts(ls) && c < 26
    ensures AnsweredKey(ls, keys, Volley(ls, keys), KeysLeft(ls, keys), c)
  {
    hide InFlight, Falling;
    forall i: nat | i < |ls| ensures Falling(ls[i]) <==> ls[i].v == 0.1 {
      FallingInFlight(ls, serials, now, created, i);
    }
    FallersApart(ls, serials, now, created);
    if k: nat :| keys[c] && FallingAs(ls, k, c) {
      var i := LowestFalling(ls, c, k);
      LowestIsHit(ls, keys, i, c);
    } else {
      NobodyHit(ls, keys, c);
    }
  }

  lemma LowestIsHit(ls: seq<Letter>, keys: seq<bool>, i: nat, c: nat)
    requires |keys| == 26 && Texts(ls) && c < 26 && keys[c] && LowestAs(ls, i, c)
    requires forall i: nat :: i < |ls| ==> (Falling(ls[i]) <==> ls[i].v == 0.1)
    ensures AnsweredKey(ls, keys, Volley(ls, keys), KeysLeft(ls, keys), c)
  {
    hide Falling;
    assert LowestOfItsKind(ls, i);
    assert Volley(ls, keys)[i] == VolleyAt(ls, keys, i) == Letter(ls[i].x, ls[i].y, c, -3.0);
    forall j | 0 <= j < |ls| && j != i && ls[j].text == c ensures Volley(ls, keys)[j] == ls[j] {
      assert Volley(ls, keys)[j] == VolleyAt(ls, keys, j);
      if ls[j].v == 0.1 { assert FallingAs(ls, j, c) && !Before(ls, j, i) && Falling(ls[i]); }
    }
    assert AnyFalling(ls, c);
  }

  lemma NobodyHit(ls: seq<Letter>, keys: seq<bool>, c: nat)
    requires |keys| == 26 && Texts(ls) && c < 26 && !(keys[c] && exists i: nat :: FallingAs(ls, i, c))
    requires forall i: nat :: i < |ls| ==> (Falling(ls[i]) <==> ls[i].v == 0.1)
    ensures AnsweredKey(ls, keys, Volley(ls, keys), KeysLeft(ls, keys), c)
  {
    hide Falling;
    forall j | 0 <= j < |ls| && ls[j].text == c ensures Volley(ls, keys)[j] == ls[j] {
      assert Volley(ls, keys)[j] == VolleyAt(ls, keys, j);
      if ls[j].v == 0.1 { assert FallingAs(ls, j, c); }
    }
    forall i: nat | i < |ls| && ls[i].text == c && keys[c] ensures !Falling(ls[i]) {
      assert !FallingAs(ls, i, c);
    }
    assert forall i :: FallingAs(ls, i, c) ==> 0 <= i;
  }

  /** Letter i falls and its key is down. */
  ghost predicate Pressed(ls: seq<Letter>, keys: seq<bool>, i: int)
    requires |keys| == 26 && Texts(ls) && 0 <= i < |ls|
  {
    ls[i].v == 0.1 && keys[ls[i].text]
  }

  ghost predicate LowestPressed(ls: seq<Letter>, keys: seq<bool>, i: nat)
    requires |keys| == 26 && Texts(ls)
  {
    && i < |ls| && Pressed(ls, keys, i)
    && forall j :: 0 <= j < |ls| && j != i && Pressed(ls, keys, j) ==> ls[j].x < ls[i].x
  }

  /** Of the falling letters whose keys are down one call of update_keypress picks the lowest. */
  lemma TargetIff(ls: seq<Letter>, serials: seq<nat>, now: nat, created: nat, keys: seq<bool>, i: nat)
    requires InFlight(ls, serials, now, created) && |keys| == 26 && Texts(ls)
    ensures Target(ls, keys, i) <==> LowestPressed(ls, keys, i)
    ensures NothingToHit(ls, keys) <==> forall j :: 0 <= j < |ls| ==> !Pressed(ls, keys, j)
  {
    hide InFlight, Falling;
    forall j: nat | j < |ls| ensures Pressed(ls, keys, j) <==> CanHit(ls[j], keys) {
      FallingInFlight(ls, serials, now, created, j);
    }
    FallersApart(ls, serials, now, created);
    hide CanHit;
    assert forall j: nat :: j < |ls| && Pressed(ls, keys, j) ==> ls[j].v == 0.1;
  }

  lemma LastUpdate(l: Letter, age: int)
    requires Flying(l, age)
    ensures l.v == 0.1 || l.v == -3.0
    ensures OffScreen(Advanced(l)) <==> if l.v == 0.1 then age >= 1921 else l.x < 3.0
    ensures OffScreen(Advanced(l)) ==> (Advanced(l).x < 0.0 <==> l.v == -3.0)
  {
    if l.v == FALL { FallsTo(l.x, age); }
  }

  lemma FallsTo(x: real, age: int)
    requires x == age as real / 10.0
    ensures x + 0.1 + 7.9 > 200.0 <==> age >= 1921
  {
    assert 10.0 * x == age as real;
  }

  lemma FlyingAt(ls: seq<Letter>, serials: seq<nat>, now: nat, created: nat, i: nat)
    requires InFlight(ls, serials, now, created) && i < |ls|
    ensures i < |serials| && Flying(ls[i], now - 20 * serials[i])
  {
    assert Flying(ls[i], now - PERIOD * serials[i]);
  }

  /** How long a letter lasts: falling it is gone with update 1921 after the one it appeared before, and
      rising with the first that would take it above the top.  What stays has moved by its speed only. */
  lemma LifetimeIff(ls: seq<Letter>, serials: seq<nat>, now: nat, created: nat, i: nat)
    requires InFlight(ls, serials, now, created) && i < |ls|
    ensures i in Staying(ls) <==> if ls[i].v == 0.1 then now - 20 * serials[i] < 1921 else ls[i].x >= 3.0
    ensures Advanced(ls[i]) == Letter(ls[i].x + ls[i].v, ls[i].y, ls[i].text, ls[i].v)
  {
    hide InFlight, Flying, OffScreen;
    FlyingAt(ls, serials, now, created, i);
    LastUpdate(ls[i], now - 20 * serials[i]);
  }

  ghost function Missed(ls: seq<Letter>, serials: seq<nat>, now: nat): set<int>
    requires |ls| == |serials|
  {
    set i | 0 <= i < |ls| && ls[i].v == 0.1 && now - 20 * serials[i] >= 1921
  }

  ghost function Escaped(ls: seq<Letter>): set<int> { set i | 0 <= i < |ls| && ls[i].v == -3.0 && ls[i].x < 3.0 }

  lemma FrontInFlight(ls: seq<Letter>, serials: seq<nat>, now: nat, created: nat)
    requires InFlight(ls, serials, now, created) && ls != []
    ensures InFlight(ls[..|ls| - 1], serials[..|ls| - 1], now, created)
  {}

  lemma LeaversSnoc(ls: seq<Letter>, serials: seq<nat>, now: nat)
    requires |ls| == |serials| && ls != []
    ensures var last := |ls| - 1;
            var missed, escaped := Missed(ls[..last], serials[..last], now), Escaped(ls[..last]);
            && last !in missed && last !in escaped
            && Missed(ls, serials, now)
               == (if ls[last].v == 0.1 && now - 20 * serials[last] >= 1921 then missed + {last} else missed)
            && Escaped(ls) == (if ls[last].v == -3.0 && ls[last].x < 3.0 then escaped + {last} else escaped)
  {}

  lemma LastCounted(ls: seq<Letter>)
    requires ls != []
    ensures var last := |ls| - 1;
            var l := Advanced(ls[last]);
            && FlownOff(ls) == FlownOff(ls[..last]) + (if OffScreen(l) && l.x < 0.0 then 1 else 0)
            && FallenOff(ls) == FallenOff(ls[..last]) + (if OffScreen(l) && !(l.x < 0.0) then 1 else 0)
  {}

  /** A letter that goes was missed if it was falling, and hit if it was rising. */
  lemma {:induction false} LeaversCounted(ls: seq<Letter>, serials: seq<nat>, now: nat, created: nat)
    requires InFlight(ls, serials, now, created)
    ensures |ls| == |serials|
    ensures FallenOff(ls) == |Missed(ls, serials, now)| && FlownOff(ls) == |Escaped(ls)|
  {
    assert |ls| == |serials|;
    if ls != [] {
      hide Flying, OffScreen, Advanced, InFlight, Missed, Escaped, FlownOff, FallenOff;
      var last := |ls| - 1;
      LastCounted(ls);
      FlyingAt(ls, serials, now, created, last);
      LastUpdate(ls[last], now - 20 * serials[last]);
      FrontInFlight(ls, serials, now, created);
      LeaversCounted(ls[..last], serials[..last], now, created);
      LeaversSnoc(ls, serials, now);
    }
  }

  // ---------- the score ----------

  function Rising(ls: seq<Letter>): (n: nat)
    ensures n <= |ls|
  {
    if ls == [] then 0 else Rising(ls[..|ls| - 1]) + if ls[|ls| - 1].v == RISE then 1 else 0
  }

  lemma {:induction false} OneMoreRising(ls: seq<Letter>, i: nat)
    requires i < |ls| && ls[i].v != RISE
    ensures Rising(ls[i := Shot(ls[i])]) == Rising(ls) + 1
  {
    var last := |ls| - 1;
    if i == last {
      assert ls[i := Shot(ls[i])][..last] == ls[..last];
    } else {
      assert ls[i := Shot(ls[i])][..last] == ls[..last][i := Shot(ls[i])];
      OneMoreRising(ls[..last], i);
    }
  }

  lemma {:induction false} RisingCons(l: Letter, ls: seq<Letter>)
    requires l.v != RISE
    ensures Rising([l] + ls) == Rising(ls)
  {
    if ls == [] {
      assert ([l] + ls)[..0] == [];
    } else {
      assert ([l] + ls)[..|ls|] == [l] + ls[..|ls| - 1];
      RisingCons(l, ls[..|ls| - 1]);
    }
  }

  lemma SurvivorsOfLast(ls: seq<Letter>)
    requires ls != []
    ensures var last := |ls| - 1;
            Survivors(ls) == Survivors(ls[..last]) + if OffScreen(Advanced(ls[last])) then [] else [Advanced(ls[last])]
  {
    var last := |ls| - 1;
    var front := ls[..last];
    assert Staying(ls) == Staying(front) + if OffScreen(Advanced(ls[last])) then [] else [last];
    forall j | 0 <= j < |Survivors(front)| ensures Survivors(ls)[j] == Survivors(front)[j] {
      assert Staying(ls)[j] == Staying(front)[j] && front[Staying(front)[j]] == ls[Staying(front)[j]];
    }
  }

  lemma RisingSnoc(ls: seq<Letter>, l: Letter)
    ensures Rising(ls + [l]) == Rising(ls) + if l.v == RISE then 1 else 0
  {
    assert (ls + [l])[..|ls|] == ls;
  }

  /** Only a letter that was hit leaves through the top, and it leaves no other way: what a step takes
      from the rising letters it adds to the hits. */
  lemma {:induction false} HitsAreShots(ls: seq<Letter>, serials: seq<nat>, now: nat, created: nat)
    requires InFlight(ls, serials, now, created)
    ensures Rising(Survivors(ls)) + FlownOff(ls) == Rising(ls)
  {
    if ls != [] {
      var last := |ls| - 1;
      var l := ls[last];
      assert Flying(l, now - PERIOD * serials[last]);
      HitsAreShots(ls[..last], serials[..last], now, created);
      SurvivorsOfLast(ls);
      hide Staying, Survivors, InFlight;
      if OffScreen(Advanced(l)) {
        assert Survivors(ls) == Survivors(ls[..last]);
      } else {
        RisingSnoc(Survivors(ls[..last]), Advanced(l));
      }
    }
  }

  // ---------- the game as a fold over interrupts and random numbers ----------

  /** Scan codes of the keys a to z. */
  const LETTER_CODE: seq<int> := [30, 48, 46, 32, 18, 33, 34, 35, 23, 36, 37, 38, 50, 49, 24, 25, 16, 19, 31, 20,
                                  22, 47, 17, 45, 21, 44]

  function CodeOf(c: char): int
    requires 'a' <= c <= 'z'
  {
    LETTER_CODE[c as int - 'a' as int]
  }

  /** The codes follow the rows of the keyboard. */
  lemma KeyboardRows()
    ensures forall i :: 0 <= i < 10 ==> 'a' <= "qwertyuiop"[i] <= 'z' && CodeOf("qwertyuiop"[i]) == 16 + i
    ensures forall i :: 0 <= i < 9 ==> 'a' <= "asdfghjkl"[i] <= 'z' && CodeOf("asdfghjkl"[i]) == 30 + i
    ensures forall i :: 0 <= i < 7 ==> 'a' <= "zxcvbnm"[i] <= 'z' && CodeOf("zxcvbnm"[i]) == 44 + i
  {}

  datatype Interrupt = Timer | Key(scanCode: int)

  /** Letters, score, key flags, the shots so far and the timer's count. */
  datatype World = World(letters: seq<Letter>, hit: nat, miss: nat, keys: seq<bool>, shots: int, tick: nat)

  ghost predicate Sane(w: World) { |w.keys| == 26 && Texts(w.letters) }

  function KeysAfter(keys: seq<bool>, burst: seq<Interrupt>): (r: seq<bool>)
    requires |keys| == 26
    ensures |r| == 26
  {
    if burst == [] then keys else
      var n := |burst| - 1;
      var before := KeysAfter(keys, burst[..n]);
      match burst[n]
      case Timer => before
      case Key(code) => seq(26, c requires 0 <= c < 26 => before[c] || LETTER_CODE[c] == code)
  }

  function Timers(burst: seq<Interrupt>): nat {
    if burst == [] then 0 else Timers(burst[..|burst| - 1]) + if burst[|burst| - 1].Timer? then 1 else 0
  }

  /** What a burst of interrupts does. */
  function Arrive(w: World, burst: seq<Interrupt>): (r: World)
    requires |w.keys| == 26
    ensures |r.keys| == 26
  {
    w.(keys := KeysAfter(w.keys, burst), tick := w.tick + Timers(burst))
  }

  lemma BurstSnoc(keys: seq<bool>, burst: seq<Interrupt>, i: nat)
    requires |keys| == 26 && i < |burst|
    ensures Timers(burst[..i + 1]) == Timers(burst[..i]) + if burst[i].Timer? then 1 else 0
    ensures burst[i].Timer? ==> KeysAfter(keys, burst[..i + 1]) == KeysAfter(keys, burst[..i])
    ensures burst[i].Key? ==> forall c :: 0 <= c < 26 ==>
              KeysAfter(keys, burst[..i + 1])[c]
              == (KeysAfter(keys, burst[..i])[c] || LETTER_CODE[c] == burst[i].scanCode)
  {
    assert burst[..i + 1][..i] == burst[..i];
  }

  /** A key is down after a burst if it was before or its code came, and every timer interrupt counts. */
  lemma {:induction false} BurstIs(keys: seq<bool>, burst: seq<Interrupt>, c: nat)
    requires |keys| == 26 && c < 26
    ensures KeysAfter(keys, burst)[c] <==> keys[c] || Key(LETTER_CODE[c]) in burst
    ensures Timers(burst) == |set i | 0 <= i < |burst| && burst[i] == Timer|
  {
    if burst != [] {
      var n := |burst| - 1;
      BurstIs(keys, burst[..n], c);
      assert burst == burst[..n] + [burst[n]];
      var before := set i | 0 <= i < n && burst[..n][i] == Timer;
      assert (set i | 0 <= i < |burst| && burst[i] == Timer) == if burst[n] == Timer then before + {n} else before;
    }
  }

  /** All the keys that are down used up. */
  ghost function Shoot(w: World): (r: World)
    requires Sane(w)
    ensures Sane(r)
  {
    VolleyTexts(w.letters, w.keys);
    var left := KeysLeft(w.letters, w.keys);
    w.(letters := Volley(w.letters, w.keys), keys := left, shots := w.shots + KeysDown(w.keys) - KeysDown(left))
  }

  lemma VolleyTexts(ls: seq<Letter>, keys: seq<bool>)
    requires Texts(ls) && |keys| == 26
    ensures Texts(Volley(ls, keys))
  {}

  /** Three numbers from rand(). */
  datatype Rand = Rand(r1: nat, r2: nat, r3: nat)

  function Born(w: World, now: nat, r: Rand): (v: World)
    requires |w.keys| == 26
    ensures |v.keys| == 26
  {
    var l := NewLetter(r.r1, r.r2, r.r3);
    if now % PERIOD == 0 then w.(letters := [l] + w.letters, keys := w.keys[l.text := false]) else w
  }

  function Aged(w: World, now: nat): World {
    if now % (HZ / UPDATE_PER_SECOND) == 0
    then w.(letters := Survivors(w.letters), hit := w.hit + FlownOff(w.letters), miss := w.miss + FallenOff(w.letters))
    else w
  }

  /** What comes from outside while one tick is dealt with. */
  datatype TickInput = TickInput(before: seq<Interrupt>, r: Rand, after: seq<Interrupt>)

  function Tick(w: World, now: nat, t: TickInput): (r: World)
    requires |w.keys| == 26
    ensures |r.keys| == 26
  {
    Aged(Arrive(Born(Arrive(w, t.before), now, t.r), t.after), now)
  }

  /** The ticks from `from` on, one per entry of ts, each of them once and in order. */
  function Ticks(w: World, from: nat, ts: seq<TickInput>): (r: World)
    requires |w.keys| == 26
    ensures |r.keys| == 26
  {
    if ts == [] then w else
      var n := |ts| - 1;
      Tick(Ticks(w, from, ts[..n]), from + n, ts[n])
  }

  lemma TicksSnoc(w: World, from: nat, ts: seq<TickInput>, t: TickInput)
    requires |w.keys| == 26
    ensures Ticks(w, from, ts + [t]) == Tick(Ticks(w, from, ts), from + |ts|, t)
  {
    hide Tick;
    assert (ts + [t])[..|ts|] == ts;
  }

  lemma {:induction false} TicksSane(w: World, from: nat, ts: seq<TickInput>)
    requires Sane(w)
    ensures Sane(Ticks(w, from, ts))
  {
    hide Tick, Texts;
    if ts != [] {
      var n := |ts| - 1;
      TicksSane(w, from, ts[..n]);
      TickSane(Ticks(w, from, ts[..n]), from + n, ts[n]);
    }
  }

  lemma TickSane(w: World, now: nat, t: TickInput)
    requires Sane(w)
    ensures Sane(Tick(w, now, t))
  {}

  /** What comes from outside during one round of the main loop: while it waits, before the volley, and
      during the ticks missed. */
  datatype Round = Round(wait: seq<Interrupt>, gap: seq<Interrupt>, ticks: seq<TickInput>)

  /** The round deals with the ticks counted when it looks, and with nothing if there are none. */
  ghost predicate Fits(w: World, now: nat, t: Round)
    requires |w.keys| == 26
  {
    var v := Arrive(w, t.wait);
    v.tick == now + |t.ticks| && (t.ticks == [] ==> t.gap == [])
  }

  ghost function AfterRound(w: World, now: nat, t: Round): (r: World)
    requires Sane(w)
    ensures Sane(r)
  {
    var v := Arrive(w, t.wait);
    if t.ticks == [] then v else
      var shot := Shoot(Arrive(v, t.gap));
      TicksSane(shot, now, t.ticks);
      Ticks(shot, now, t.ticks)
  }

  // ---------- a letter over a whole round ----------

  lemma SurvivorOf(ls: seq<Letter>, l: Letter)
    requires l in ls && 0.0 <= l.x + l.v <= 192.1
    ensures Letter(l.x + l.v, l.y, l.text, l.v) in Survivors(ls)
  {
    var i: nat :| i < |ls| && ls[i] == l;
    assert i in Staying(ls);
    var j :| 0 <= j < |Staying(ls)| && Staying(ls)[j] == i;
    assert Survivors(ls)[j] == Advanced(l);
  }

  lemma OneTick(w: World, now: nat, t: TickInput, l: Letter)
    requires |w.keys| == 26 && l in w.letters && 0.0 <= l.x + l.v <= 192.1
    ensures Letter(l.x + l.v, l.y, l.text, l.v) in Tick(w, now, t).letters
  {
    hide Survivors, FlownOff, FallenOff, KeysAfter, Timers, NewLetter;
    SurvivorOf(Born(Arrive(w, t.before), now, t.r).letters, l);
  }

  /** Where l is after n ticks if it goes on as it is going. */
  function Course(l: Letter, n: nat): Letter { Letter(l.x + n as real * l.v, l.y, l.text, l.v) }

  lemma CourseStep(l: Letter, n: nat)
    requires 0.0 <= l.x <= 192.1 && 0.0 <= Course(l, n + 1).x <= 192.1
    ensures 0.0 <= Course(l, n).x <= 192.1
    ensures Course(l, n + 1) == Letter(Course(l, n).x + l.v, l.y, l.text, l.v)
  {
    var r, v := n as real, l.v;
    assert (n + 1) as real == r + 1.0;
    assert (r + 1.0) * v == r * v + v;
    if v >= 0.0 { assert r * v >= 0.0; } else { assert r * -v >= 0.0 && r * v == -(r * -v); }
  }

  /** Through any number of ticks a letter goes on as it was going, until it reaches an edge. */
  lemma {:induction false} OnCourse(w: World, from: nat, ts: seq<TickInput>, l: Letter)
    requires |w.keys| == 26 && l in w.letters && 0.0 <= l.x <= 192.1 && 0.0 <= Course(l, |ts|).x <= 192.1
    ensures Course(l, |ts|) in Ticks(w, from, ts).letters
  {
    hide Course, Ticks, Tick;
    CourseKeeps(l, 0);
    LastTick(w, from, ts);
    if ts != [] {
      var n := |ts| - 1;
      CourseStep(l, n);
      CourseKeeps(l, n);
      OnCourse(w, from, ts[..n], l);
      OneTick(Ticks(w, from, ts[..n]), from + n, ts[n], Course(l, n));
    }
  }

  lemma LastTick(w: World, from: nat, ts: seq<TickInput>)
    requires |w.keys| == 26
    ensures Ticks(w, from, ts) == if ts == [] then w else
                                    var n := |ts| - 1; Tick(Ticks(w, from, ts[..n]), from + n, ts[n])
  {
    hide Tick;
  }

  lemma CourseKeeps(l: Letter, n: nat)
    ensures Course(l, n) == Letter(Course(l, n).x, l.y, l.text, l.v)
    ensures Course(l, 0) == l
  {}

  /** The key of letter i is down when the volley begins, and the letter is the lowest of its kind. */
  ghost predicate HitBy(w: World, t: Round, i: nat)
    requires Sane(w) && i < |w.letters|
  {
    var c := w.letters[i].text;
    LowestAs(w.letters, i, c) && 0 <= c < 26 && Arrive(Arrive(w, t.wait), t.gap).keys[c]
  }

  /** In a round that deals with any ticks, the lowest falling letter of a key that is down when the
      volley begins rises with every one of them, and every other falling letter goes on falling. */
  lemma RoundFollows(w: World, now: nat, t: Round, serials: seq<nat>, created: nat, i: nat)
    requires Sane(w) && InFlight(w.letters, serials, now, created) && t.ticks != []
    requires i < |w.letters| && w.letters[i].v == 0.1
    ensures var l, n := w.letters[i], |t.ticks|;
            && (HitBy(w, t, i) && l.x >= 3.0 * n as real ==>
                  Letter(l.x - 3.0 * n as real, l.y, l.text, -3.0) in AfterRound(w, now, t).letters)
            && (!HitBy(w, t, i) && l.x + 0.1 * n as real <= 192.1 ==>
                  Letter(l.x + 0.1 * n as real, l.y, l.text, 0.1) in AfterRound(w, now, t).letters)
  {
    hide InFlight, Ticks, Course, AnsweredKey;
    var shot, n, l := Shoot(Arrive(Arrive(w, t.wait), t.gap)), |t.ticks|, w.letters[i];
    VolleyInRound(w, now, t, serials, created, i);
    var after := shot.letters[i];
    CourseIs(after, n);
    assert after in shot.letters;
    if 0.0 <= Course(after, n).x <= 192.1 { OnCourse(shot, now, t.ticks, after); }
  }

  lemma CourseIs(l: Letter, n: nat)
    ensures l.v == 0.1 ==> Course(l, n) == Letter(l.x + 0.1 * n as real, l.y, l.text, 0.1)
    ensures l.v == -3.0 ==> Course(l, n) == Letter(l.x - 3.0 * n as real, l.y, l.text, -3.0)
  {}

  lemma VolleyInRound(w: World, now: nat, t: Round, serials: seq<nat>, created: nat, i: nat)
    requires Sane(w) && InFlight(w.letters, serials, now, created) && i < |w.letters| && w.letters[i].v == 0.1
    ensures var after, l := Shoot(Arrive(Arrive(w, t.wait), t.gap)).letters, w.letters[i];
            && |after| == |w.letters| && 0.0 <= l.x <= 192.1
            && after[i] == if HitBy(w, t, i) then Letter(l.x, l.y, l.text, -3.0) else l
  {
    hide InFlight, Volley, KeysLeft, KeysDown, KeysAfter, Timers, AnsweredKey;
    var ls, l, keys := w.letters, w.letters[i], Arrive(Arrive(w, t.wait), t.gap).keys;
    FlyingAt(ls, serials, now, created, i);
    VolleyAnswers(ls, serials, now, created, keys);
    assert AnsweredKey(ls, keys, Volley(ls, keys), KeysLeft(ls, keys), l.text);
    FollowedLetter(ls, keys, Volley(ls, keys), KeysLeft(ls, keys), i);
  }

  lemma FollowedLetter(ls: seq<Letter>, keys: seq<bool>, ls': seq<Letter>, keys': seq<bool>, i: nat)
    requires i < |ls| && |keys| == |keys'| == 26 && |ls| == |ls'| && 0 <= ls[i].text < 26 && ls[i].v == 0.1
    requires AnsweredKey(ls, keys, ls', keys', ls[i].text)
    ensures ls'[i] == if LowestAs(ls, i, ls[i].text) && keys[ls[i].text]
                      then Letter(ls[i].x, ls[i].y, ls[i].text, -3.0) else ls[i]
  {
    assert FallingAs(ls, i, ls[i].text);
  }

  function Elapsed(rounds: seq<Round>): nat {
    if rounds == [] then 0 else Elapsed(rounds[..|rounds| - 1]) + |rounds[|rounds| - 1].ticks|
  }

  /** The whole game, from the world it starts in. */
  ghost function Play(w: World, rounds: seq<Round>): (r: World)
    requires Sane(w)
    ensures Sane(r)
  {
    if rounds == [] then w else
      var n := |rounds| - 1;
      AfterRound(Play(w, rounds[..n]), Elapsed(rounds[..n]), rounds[n])
  }

  ghost predicate Playable(w: World, rounds: seq<Round>)
    requires Sane(w)
  {
    forall k: nat :: k < |rounds| ==> Fits(Play(w, rounds[..k]), Elapsed(rounds[..k]), rounds[k])
  }

  lemma NothingPlayed(w: World)
    requires Sane(w)
    ensures Play(w, []) == w && Elapsed([]) == 0 && Playable(w, [])
  {}

  lemma PlaySnoc(w: World, rounds: seq<Round>, t: Round)
    requires Sane(w) && Playable(w, rounds) && Fits(Play(w, rounds), Elapsed(rounds), t)
    ensures Playable(w, rounds + [t]) && Elapsed(rounds + [t]) == Elapsed(rounds) + |t.ticks|
    ensures Play(w, rounds + [t]) == AfterRound(Play(w, rounds), Elapsed(rounds), t)
  {
    hide AfterRound, Fits;
    var all := rounds + [t];
    assert all[..|rounds|] == rounds;
    forall k: nat | k < |all| ensures Fits(Play(w, all[..k]), Elapsed(all[..k]), all[k]) {
      if k < |rounds| { assert all[..k] == rounds[..k]; }
    }
  }
}
