/** The typing game: falling letters on a pool-allocated list, the keyboard flags, and the main loop
    that catches up with the timer while interrupts keep arriving. */
module TypingGame {
  import opened Lists
  import opened LinkLists
  import opened Letters

  const SIZE: nat := 1000
  const FPS: nat := 30

  /** A scan code presses one key at most. */
  lemma CodesDiffer()
    ensures |LETTER_CODE| == 26 && Distinct(LETTER_CODE)
  {
    var key := map i: int | 0 <= i < 26 :: LETTER_CODE[i];
    forall i, j | 0 <= i < j < 26 ensures LETTER_CODE[i] != LETTER_CODE[j] {}
  }

  class Game {
    const flies: LinkList
    /** The fields the list is declared with, node by node. */
    const letters: array<Letter>
    const pressed: array<bool>
    var head: int
    var hit: nat
    var miss: nat
    var interruptsOn: bool
    var tick: nat
    var realFps: int

    /** How often update_keypress has hit. */
    ghost var shots: nat

    /** What the laws in Letters are about. */
    ghost function Scene(): World
      requires Linked()
      reads this`head, this`hit, this`miss, this`tick, this`shots, flies, flies.pool, letters, pressed
    {
      World(OnScreen(), hit, miss, pressed[..], shots, tick)
    }

    /** The list on the screen is in order and nothing is in flight between the two lists. */
    ghost predicate Linked()
      reads this`head, flies, flies.pool
    {
      && flies.Valid() && flies.size == SIZE && flies.loose == {} && head == HeadOf(flies.live)
      && letters.Length == SIZE + 1 && pressed.Length == 26
    }

    /** The letters on the screen, newest first. */
    ghost function OnScreen(): seq<Letter>
      requires Linked()
      reads this`head, flies, flies.pool, letters
    {
      LiveInPool();
      Picked(letters[..], flies.live)
    }

    ghost predicate Valid()
      reads this`head, flies, flies.pool, letters
    {
      Linked() && Texts(OnScreen())
    }

    lemma LiveInPool()
      requires Linked()
      ensures forall i :: 0 <= i < |flies.live| ==> flies.live[i] <= SIZE
      ensures |flies.live| <= SIZE
      ensures head != NULL ==> Ready(SIZE, flies.Contents())
    {
      if flies.freeHead != NULL { InUse(SIZE, flies.Contents()); }
    }

    /** Following the list: the node after the k-th. */
    lemma Following(k: nat)
      requires Linked() && k < |flies.live|
      ensures flies.live[k] <= SIZE && flies.pool.Length == SIZE + 1
      ensures flies.pool[flies.live[k]].next == NextOf(flies.live, k)
      ensures Distinct(flies.live)
    {
      LiveInPool();
      LiveLinks(SIZE, flies.Contents());
      assert flies.pool[..][flies.live[k]] == flies.pool[flies.live[k]];
    }

    constructor ()
      ensures Valid() && OnScreen() == [] && hit == 0 && miss == 0 && tick == 0 && shots == 0
      ensures forall c :: 0 <= c < 26 ==> !pressed[c]
    {
      flies := new LinkList(SIZE);
      letters := new Letter[SIZE + 1](_ => Letter(0.0, 0, 0, 0.0));
      pressed := new bool[26](_ => false);
      head, hit, miss, interruptsOn, tick, realFps, shots := NULL, 0, 0, false, 0, 0, 0;
    }

    // ---------- interrupts ----------

    /** press_key */
    method PressKey(scanCode: int)
      requires pressed.Length == 26
      modifies pressed
      ensures forall c :: 0 <= c < 26 ==> pressed[c] == (old(pressed[c]) || LETTER_CODE[c] == scanCode)
    {
      for i := 0 to 26
        invariant forall c :: 0 <= c < 26 ==>
                    pressed[c] == (old(pressed[c]) || (c < i && LETTER_CODE[c] == scanCode))
      {
        if LETTER_CODE[i] == scanCode { pressed[i] := true; }
      }
    }

    /** release_key */
    method ReleaseKey(index: nat)
      requires pressed.Length == 26 && index < 26
      modifies pressed
      ensures pressed[..] == old(pressed[..])[index := false]
    {
      pressed[index] := false;
    }

    /** A place where interrupts may arrive: any number of timer and keyboard interrupts if they are
        enabled, none if they are not. */
    method Deliver() returns (ghost burst: seq<Interrupt>)
      requires pressed.Length == 26
      modifies this`tick, pressed
      ensures tick == old(tick) + Timers(burst) && pressed[..] == KeysAfter(old(pressed[..]), burst)
      ensures !interruptsOn ==> burst == []
    {
      burst := [];
      if interruptsOn {
        var arriving: seq<Interrupt> := *;
        for i := 0 to |arriving|
          invariant tick == old(tick) + Timers(arriving[..i])
          invariant pressed[..] == KeysAfter(old(pressed[..]), arriving[..i])
        {
          BurstSnoc(old(pressed[..]), arriving, i);
          match arriving[i]
          case Timer => tick := tick + 1;
          case Key(scanCode) => PressKey(scanCode);
          assert pressed[..] == KeysAfter(old(pressed[..]), arriving[..i + 1]);
        }
        assert arriving[..|arriving|] == arriving;
        burst := arriving;
      }
    }

    // ---------- letters ----------

    /** create_new_letter, on three numbers from rand(); false is the failing assertion in new. */
    method CreateNewLetter(r1: nat, r2: nat, r3: nat) returns (ok: bool)
      requires Valid()
      modifies this`head, flies, flies.pool, letters, pressed
      ensures Valid()
      ensures ok <==> |old(OnScreen())| < SIZE
      ensures ok ==> OnScreen() == [NewLetter(r1, r2, r3)] + old(OnScreen())
      ensures ok ==> pressed[..] == old(pressed[..])[NewLetter(r1, r2, r3).text := false]
      ensures !ok ==> OnScreen() == old(OnScreen()) && pressed[..] == old(pressed[..])
    {
      hide Ready, Consistent, Untouched;
      ghost var was := OnScreen();
      ok := NewNode();
      if !ok { return; }
      LiveInPool();
      letters[head] := letters[head].(x := 0.0);
      letters[head] := letters[head].(y := r1 % (SCR_WIDTH / 8 - 2) * 8 + 8);
      letters[head] := letters[head].(v := (r2 % 1000 / 5000) as real + FALL);
      letters[head] := letters[head].(text := r3 % 26);
      assert OnScreen() == [NewLetter(r1, r2, r3)] + was;
      ReleaseKey(letters[head].text);
      assert OnScreen() == [NewLetter(r1, r2, r3)] + was;
    }

    /** Its first half: a node taken from the pool and put at the front of the list. */
    method NewNode() returns (ok: bool)
      requires Linked()
      modifies this`head, flies, flies.pool
      ensures Linked()
      ensures ok <==> |old(flies.live)| < SIZE
      ensures !ok ==> flies.live == old(flies.live)
      ensures ok ==> head !in old(flies.live) && flies.live == [head] + old(flies.live)
    {
      hide Consistent, Ready, Untouched, With, Inserted, Taken, Started;
      LiveInPool();
      WithFirst(flies.live);
      if head == NULL {
        var n := flies.New();
        assert flies.Contents().links[n] == flies.pool[n];
        AdoptedReady(SIZE, flies.Contents(), n);
        flies.live, flies.loose := [n], flies.loose - {n};
        head := n;
        assert flies.loose == {};
        ReadyConsistent();
      } else {
        var now := flies.New();
        ReadyConsistent();
        if now == NULL { return false; }
        flies.Insert(NULL, head, now, 0);
        head := now;
        assert flies.loose == {};
        ReadyConsistent();
      }
      return true;
    }

    /** fly_remove, fly_free, and the head moved on if it was the one. */
    method Drop(it: nat, next: int, ghost k: nat)
      requires Linked() && k < |flies.live| && flies.live[k] == it && next == NextOf(flies.live, k)
      modifies this`head, flies, flies.pool
      ensures Linked() && flies.live == Without(old(flies.live), k)
    {
      hide Ready, Consistent, Untouched;
      Following(k);
      LiveInPool();
      ghost var live := flies.live;
      flies.Remove(it, k);
      flies.Free(it);
      assert k > 0 ==> live[0] != live[k];
      if it == head { head := next; }
      assert flies.loose == {};
      assert flies.Valid() by { ReadyConsistent(); }
    }

    lemma ReadyConsistent()
      requires Ready(flies.size, flies.Contents())
      ensures flies.Valid()
    {}

    /** update_letter_pos has dealt with the first i letters of ls, which were on the nodes `live`. */
    ghost predicate Midway(live: seq<nat>, ls: seq<Letter>, i: nat)
      reads this`head, flies, flies.pool, letters
    {
      && Linked() && i <= |live| == |ls| && Distinct(live)
      && flies.live == Remaining(live, ls, i)
      && Moved(live, ls, i)
    }

    /** Its first i letters have moved on. */
    ghost predicate Moved(live: seq<nat>, ls: seq<Letter>, i: nat)
      reads letters
    {
      && |live| == |ls| && letters.Length == SIZE + 1
      && forall j :: 0 <= j < |live| ==> live[j] <= SIZE && letters[live[j]] == if j < i then Advanced(ls[j]) else ls[j]
    }

    lemma MovedInPool(live: seq<nat>, ls: seq<Letter>, i: nat)
      requires Moved(live, ls, i)
      ensures letters.Length == SIZE + 1 && forall j :: 0 <= j < |live| ==> live[j] <= SIZE
    {}

    method MoveLetter(it: nat, ghost live: seq<nat>, ghost ls: seq<Letter>, ghost i: nat)
      requires Moved(live, ls, i) && Distinct(live) && i < |live| && it == live[i]
      modifies letters
      ensures Moved(live, ls, i + 1) && letters[it] == Advanced(ls[i])
    {
      letters[it] := letters[it].(x := letters[it].x + letters[it].v);
    }

    /** One letter of update_letter_pos. */
    method UpdateOne(it: nat, ghost live: seq<nat>, ghost ls: seq<Letter>, ghost i: nat) returns (next: int)
      requires Midway(live, ls, i) && i < |live| && it == live[i]
      modifies this`head, this`hit, this`miss, flies, flies.pool, letters
      ensures Midway(live, ls, i + 1) && next == if i + 1 < |live| then live[i + 1] else NULL
      ensures hit == old(hit) + FlownOff(ls[..i + 1]) - FlownOff(ls[..i])
      ensures miss == old(miss) + FallenOff(ls[..i + 1]) - FallenOff(ls[..i])
    {
      hide Place, Remaining, Without, FlownOff, FallenOff, Distinct, Moved, Linked;
      ghost var k := Place(ls, i);
      StepLists(live, ls, i);
      StepCounts(ls, i);
      Following(k);
      MovedInPool(live, ls, i);
      next := flies.pool[it].next;
      MoveLetter(it, live, ls, i);
      if letters[it].x < 0.0 || letters[it].x + 7.9 > SCR_HEIGHT as real {
        if letters[it].x < 0.0 { hit := hit + 1; } else { miss := miss + 1; }
        Drop(it, next, k);
      }
    }

    /** update_letter_pos */
    method UpdateLetterPos()
      requires Valid()
      modifies this`head, this`hit, this`miss, flies, flies.pool, letters
      ensures Valid()
      ensures OnScreen() == Survivors(old(OnScreen()))
      ensures hit == old(hit) + FlownOff(old(OnScreen())) && miss == old(miss) + FallenOff(old(OnScreen()))
    {
      hide Consistent, Texts, Moved, Remaining, Staying, Survivors, FlownOff, FallenOff, Distinct;
      LiveInPool();
      ghost var ls, live := OnScreen(), flies.live;
      ghost var i: nat := 0;
      var it := head;
      StartMidway();
      NoneCounted(ls);
      while it != NULL
        invariant Midway(live, ls, i) && it == if i < |live| then live[i] else NULL
        invariant hit == old(hit) + FlownOff(ls[..i]) && miss == old(miss) + FallenOff(ls[..i])
        decreases |live| - i
      {
        it := UpdateOne(it, live, ls, i);
        i := i + 1;
      }
      assert ls[..i] == ls && live[i..] == [];
      EndMidway(live, ls);
      SurvivorTexts(ls);
    }

    lemma StartMidway()
      requires Valid()
      ensures Midway(flies.live, OnScreen(), 0)
    {
      hide Remaining, Linked, Distinct, Texts;
      LiveInPool();
      LiveDistinct();
      RemainingAtStart(flies.live, OnScreen());
      StartMoved();
    }

    lemma LiveDistinct()
      requires Linked()
      ensures Distinct(flies.live)
    {
      if flies.live != [] { Following(0); }
    }

    lemma StartMoved()
      requires Linked()
      ensures Moved(flies.live, OnScreen(), 0)
    {
      LiveInPool();
      hide Consistent;
    }

    lemma EndMidway(live: seq<nat>, ls: seq<Letter>)
      requires Midway(live, ls, |live|)
      ensures OnScreen() == Survivors(ls)
    {
      assert ls[..|live|] == ls && live[|live|..] == [];
      var at := Staying(ls);
      assert flies.live == Picked(live, at);
      forall j | 0 <= j < |at| ensures OnScreen()[j] == Survivors(ls)[j] {
        assert flies.live[j] == live[at[j]];
      }
    }

    // ---------- shooting ----------

    /** The search of update_keypress. */
    method FindTarget() returns (target: int, ghost t: nat)
      requires Valid()
      ensures target == NULL ==> NothingToHit(OnScreen(), pressed[..])
      ensures target != NULL ==> Target(OnScreen(), pressed[..], t) && target == flies.live[t]
    {
      hide Consistent, Untouched, Ready;
      LiveInPool();
      ghost var ls, keys := OnScreen(), pressed[..];
      var it, min := head, -100.0;
      target, t := NULL, 0;
      ghost var k: nat := 0;
      while it != NULL
        invariant k <= |ls| && it == if k < |ls| then flies.live[k] else NULL
        invariant target == NULL ==> min == -100.0 && forall j :: 0 <= j < k ==> !CanHit(ls[j], keys)
        invariant target != NULL ==> t < k && target == flies.live[t] && min == ls[t].x && CanHit(ls[t], keys)
        invariant target != NULL ==> forall j: nat :: j < k && j != t && CanHit(ls[j], keys) ==> Before(ls, t, j)
        decreases |ls| - k
      {
        Following(k);
        assert letters[it] == ls[k];
        if letters[it].v > 0.0 && letters[it].x > min && pressed[letters[it].text] {
          min := letters[it].x;
          target, t := it, k;
        }
        it := flies.pool[it].next;
        k := k + 1;
      }
    }

    /** update_keypress; interrupts are off on return if a letter was hit. */
    method UpdateKeypress() returns (fired: bool, ghost i: nat)
      requires Valid()
      modifies this`interruptsOn, this`shots, letters, pressed
      ensures Valid() && interruptsOn == !fired && shots == old(shots) + if fired then 1 else 0
      ensures !fired ==> NothingToHit(old(OnScreen()), old(pressed[..]))
      ensures !fired ==> OnScreen() == old(OnScreen()) && pressed[..] == old(pressed[..])
      ensures fired ==> Target(old(OnScreen()), old(pressed[..]), i)
      ensures fired ==> OnScreen() == old(OnScreen())[i := Shot(old(OnScreen())[i])]
      ensures fired ==> pressed[..] == old(pressed[..])[old(OnScreen())[i].text := false]
      ensures pressed.Length == 26
      ensures forall serials, now, created :: InFlight(old(OnScreen()), serials, now, created) ==>
                if fired then LowestPressed(old(OnScreen()), old(pressed[..]), i)
                else forall j :: 0 <= j < |old(OnScreen())| ==> !Pressed(old(OnScreen()), old(pressed[..]), j)
    {
      hide Consistent, Untouched, Ready, Target, NothingToHit, LowestPressed, Pressed, InFlight, Distinct;
      LiveInPool();
      ghost var ls := OnScreen();
      interruptsOn := false;
      var target;
      target, i := FindTarget();
      forall serials, now, created | InFlight(ls, serials, now, created)
        ensures Target(ls, pressed[..], i) <==> LowestPressed(ls, pressed[..], i)
        ensures NothingToHit(ls, pressed[..]) <==> forall j :: 0 <= j < |ls| ==> !Pressed(ls, pressed[..], j)
      {
        TargetIff(ls, serials, now, created, pressed[..], i);
      }
      if target != NULL {
        TargetInRange(ls, pressed[..], i);
        Following(i);
        ReleaseKey(letters[target].text);
        TurnRound(target, i);
        shots := shots + 1;
        return true, i;
      }
      interruptsOn := true;
      return false, i;
    }

    /** The i-th letter starts to rise. */
    method TurnRound(target: nat, ghost i: nat)
      requires Valid() && i < |flies.live| && target == flies.live[i]
      modifies letters
      ensures Valid() && OnScreen() == old(OnScreen())[i := Shot(old(OnScreen())[i])]
    {
      hide Consistent, Texts, Distinct, Picked;
      LiveInPool();
      LiveDistinct();
      PickedUpdate(letters[..], flies.live, i, Shot(letters[target]));
      TextsUpdate(OnScreen(), i);
      letters[target] := letters[target].(v := RISE);
    }

    /** The loop around update_keypress.  It ends because every hit uses up one of the keys that were
        down when interrupts went off, and while they are off no key is pressed; all in all every key
        hits the lowest letter of its kind. */
    method ShootAll() returns (ghost gap: seq<Interrupt>)
      requires Valid()
      modifies this`tick, this`interruptsOn, this`shots, letters, pressed
      ensures Valid() && interruptsOn && Sane(old(Scene()))
      ensures !old(interruptsOn) ==> gap == []
      ensures Scene() == Shoot(Arrive(old(Scene()), gap))
      ensures old(shots) <= shots <= old(shots) + 26
      ensures forall serials, now, created :: InFlight(old(OnScreen()), serials, now, created) ==>
                Answered(old(OnScreen()), Arrive(old(Scene()), gap).keys, OnScreen(), pressed[..])
      ensures Rising(OnScreen()) - shots == old(Rising(OnScreen()) - shots)
    {
      hide Linked, Target, Volley, KeysLeft, KeysDown, Rising, Texts, NothingToHit, KeysAfter, Timers;
      hide InFlight, Answered, LowestPressed, Pressed;
      SceneSane();
      ghost var ls := OnScreen();
      gap := Deliver();
      ghost var keys := pressed[..];
      var fired, i := UpdateKeypress();
      if fired { ShotCounts(ls, keys, i); }
      while fired
        invariant Valid() && interruptsOn == !fired && pressed.Length == 26 && tick == old(tick) + Timers(gap)
        invariant Volley(OnScreen(), pressed[..]) == Volley(ls, keys)
                  && KeysLeft(OnScreen(), pressed[..]) == KeysLeft(ls, keys)
        invariant shots == old(shots) + KeysDown(keys) - KeysDown(pressed[..])
        invariant Rising(OnScreen()) - shots == Rising(ls) - old(shots)
        invariant !fired ==> NothingToHit(OnScreen(), pressed[..])
        decreases KeysDown(pressed[..]) + if fired then 1 else 0
      {
        ghost var ls', keys' := OnScreen(), pressed[..];
        NoBurst(keys');
        ghost var none := Deliver();
        fired, i := UpdateKeypress();
        if fired { ShotCounts(ls', keys', i); }
      }
      VolleyOver(OnScreen(), pressed[..]);
      VolleyAnswersAll(ls, keys);
    }

    lemma SceneSane()
      requires Valid()
      ensures Sane(Scene()) && pressed.Length == 26
    {}

    // ---------- the main loop ----------

    /** What holds whenever the main loop has dealt with `now` ticks: one letter was made every PERIOD
        ticks; each is on the screen where the ticks since have put it, or was counted once; and the
        hits are the shots that have left the screen. */
    ghost predicate Running(now: nat, serials: seq<nat>, created: nat)
      reads this`head, this`hit, this`miss, this`shots, flies, flies.pool, letters
    {
      && Valid()
      && InFlight(OnScreen(), serials, now, created)
      && created == Made(now)
      && hit + miss + |OnScreen()| == created
      && hit + Rising(OnScreen()) == shots
    }

    /** A letter every PERIOD ticks.  There is always a node for it. */
    method Create(now: nat, ghost serials0: seq<nat>, ghost created0: nat)
      returns (ghost serials: seq<nat>, ghost created: nat, ghost r: Rand)
      requires Running(now, serials0, created0)
      modifies this`head, flies, flies.pool, letters, pressed
      ensures Valid() && InFlight(OnScreen(), serials, now, created)
      ensures created == Made(now + 1) && Scene() == Born(old(Scene()), now, r)
      ensures hit + miss + |OnScreen()| == created && hit + Rising(OnScreen()) == shots
    {
      hide Linked, Texts, InFlight, Rising, Made;
      SceneSane();
      MadeSteps(now);
      serials, created, r := serials0, created0, Rand(0, 0, 0);
      if now % PERIOD == 0 {
        var r1: nat, r2: nat, r3: nat := *, *, *;
        r := Rand(r1, r2, r3);
        FewLetters(OnScreen(), serials, now, created);
        BornInFlight(OnScreen(), serials, now, created, r1, r2, r3);
        RisingCons(NewLetter(r1, r2, r3), OnScreen());
        var ok := CreateNewLetter(r1, r2, r3);
        assert ok;
        serials, created := [created] + serials, created + 1;
      }
    }

    /** The letters move on one tick. */
    method Update(now: nat, ghost serials0: seq<nat>, ghost created: nat) returns (ghost serials: seq<nat>)
      requires Valid() && InFlight(OnScreen(), serials0, now, created) && created == Made(now + 1)
      requires hit + miss + |OnScreen()| == created && hit + Rising(OnScreen()) == shots
      modifies this`head, this`hit, this`miss, flies, flies.pool, letters
      ensures Running(now + 1, serials, created) && Scene() == Aged(old(Scene()), now)
    {
      hide Linked, Texts, InFlight, Rising, Made, Survivors, FlownOff, FallenOff, Staying;
      serials := serials0;
      if now % (HZ / UPDATE_PER_SECOND) == 0 {
        ghost var ls := OnScreen();
        NobodyLost(ls);
        HitsAreShots(ls, serials, now, created);
        SurvivorsInFlight(ls, serials, now, created);
        StayingOf(ls, serials, now, created);
        UpdateLetterPos();
        serials := Picked(serials, Staying(ls));
      }
    }

    /** One tick: a letter if it is time for one, and the move, with interrupts before each. */
    method DealWith(now: nat, ghost serials0: seq<nat>, ghost created0: nat)
      returns (ghost serials: seq<nat>, ghost created: nat, ghost t: TickInput)
      requires Running(now, serials0, created0)
      modifies this`head, this`hit, this`miss, this`tick, flies, flies.pool, letters, pressed
      ensures old(tick) <= tick && Running(now + 1, serials, created)
      ensures |old(Scene()).keys| == 26 && Scene() == Tick(old(Scene()), now, t)
    {
      hide Linked, Texts, InFlight, Rising, Made, Born, Aged, KeysAfter, Timers;
      SceneSane();
      ghost var before := Deliver();
      ghost var r;
      serials, created, r := Create(now, serials0, created0);
      SceneSane();
      ghost var after := Deliver();
      serials := Update(now, serials, created);
      t := TickInput(before, r, after);
    }

    /** The inner loop: every tick missed so far, one by one, while interrupts go on. */
    method CatchUp(from: nat, target: nat, drawn: nat, ghost serials0: seq<nat>, ghost created0: nat)
      returns (redraw: bool, numDraw: nat, ghost serials: seq<nat>, ghost created: nat, ghost ts: seq<TickInput>)
      requires from < target <= tick && Running(from, serials0, created0)
      modifies this`head, this`hit, this`miss, this`tick, this`realFps, flies, flies.pool, letters, pressed
      ensures target <= tick && Running(target, serials, created)
      ensures |ts| == target - from && |old(Scene()).keys| == 26 && Scene() == Ticks(old(Scene()), from, ts)
      ensures redraw <==> exists t :: from <= t < target && t % 3 == 0
      ensures Measured(from, target, drawn, old(realFps), numDraw, realFps)
    {
      hide Linked, Texts, InFlight, Rising, Made, Measured, Ticks, Tick;
      SceneSane();
      NothingMeasured(from, drawn, realFps);
      var now := from;
      redraw, numDraw, serials, created, ts := false, drawn, serials0, created0, [];
      NoTicks(Scene(), from);
      while now < target
        invariant now <= target <= tick && Running(now, serials, created)
        invariant |ts| == now - from && Scene() == Ticks(old(Scene()), from, ts)
        invariant redraw <==> exists t :: from <= t < now && t % 3 == 0
        invariant Measured(from, now, drawn, old(realFps), numDraw, realFps)
      {
        MeasuredStep(from, now, drawn, old(realFps), numDraw, realFps);
        ghost var t;
        serials, created, t := DealWith(now, serials, created);
        TicksSnoc(old(Scene()), from, ts, t);
        ts := ts + [t];
        if now % (HZ / FPS) == 0 { redraw := true; }
        if now % (HZ / 2) == 0 {
          realFps := if numDraw * 2 + 1 > FPS then FPS else numDraw * 2 + 1;
          numDraw := 0;
        }
        now := now + 1;
      }
    }

    /** One round of the main loop: nothing if no tick came, else a volley and the ticks seen. */
    method OneRound(now0: nat, drawn: nat, ghost serials0: seq<nat>, ghost created0: nat)
      returns (now: nat, numDraw: nat, ghost serials: seq<nat>, ghost created: nat, ghost round: Round)
      requires now0 <= tick && Running(now0, serials0, created0)
      modifies this`head, this`hit, this`miss, this`interruptsOn, this`tick, this`shots, this`realFps
      modifies flies, flies.pool, letters, pressed
      ensures old(tick) <= now <= tick && interruptsOn && Running(now, serials, created)
      ensures Sane(old(Scene())) && Fits(old(Scene()), now0, round) && now == now0 + |round.ticks|
      ensures Scene() == AfterRound(old(Scene()), now0, round)
      ensures !old(interruptsOn) ==> round.wait == []
      ensures exists left: nat :: Measured(now0, now, drawn, old(realFps), left, realFps)
                && numDraw == left + if exists t :: now0 <= t < now && t % 3 == 0 then 1 else 0
    {
      hide Linked, Texts, InFlight, Rising, Made, Shoot, Ticks, KeysAfter, Timers;
      SceneSane();
      now, numDraw, serials, created := now0, drawn, serials0, created0;
      ghost var wait := Deliver();
      round := Round(wait, [], []);
      interruptsOn := false;
      if now == tick {
        interruptsOn := true;
        NothingMeasured(now, drawn, realFps);
        return;
      }
      assert now < tick;
      var target := tick;
      interruptsOn := true;
      ghost var world := Scene();
      ghost var gap := ShootAll();
      ShootInFlight(Arrive(world, gap), serials, now, created);
      var redraw;
      ghost var ts;
      redraw, numDraw, serials, created, ts := CatchUp(now, target, numDraw, serials, created);
      now, round := target, Round(wait, gap, ts);
      if redraw { numDraw := numDraw + 1; }
    }

    /** main_loop, any number of rounds from the start, whatever interrupts arrive and whatever rand()
        returns: letters, score, key flags, shots and clock are what the fold over the rounds makes of
        the interrupts and numbers that came. */
    method MainLoop(n: nat)
      returns (now: nat, ghost serials: seq<nat>, ghost created: nat, ghost rounds: seq<Round>)
      requires Valid() && OnScreen() == [] && hit == 0 && miss == 0 && shots == 0
      modifies this`head, this`hit, this`miss, this`interruptsOn, this`tick, this`shots, this`realFps
      modifies flies, flies.pool, letters, pressed
      ensures now <= tick && Running(now, serials, created) && |OnScreen()| <= 100
      ensures hit + miss + |OnScreen()| == (now + 19) / 20
      ensures |rounds| == n && now == Elapsed(rounds)
      ensures Sane(old(Scene())) && Playable(old(Scene()), rounds) && Scene() == Play(old(Scene()), rounds)
    {
      hide Linked, Texts, InFlight, AfterRound, Fits, Playable, Play, Elapsed;
      StartInFlight();
      SceneSane();
      NothingPlayed(Scene());
      var numDraw := 0;
      now, serials, created, rounds := 0, [], 0, [];
      for k := 0 to n
        invariant |rounds| == k && now <= tick && Running(now, serials, created)
        invariant now == Elapsed(rounds) && Playable(old(Scene()), rounds) && Scene() == Play(old(Scene()), rounds)
      {
        ghost var round;
        now, numDraw, serials, created, round := OneRound(now, numDraw, serials, created);
        PlaySnoc(old(Scene()), rounds, round);
        rounds := rounds + [round];
      }
      FewLetters(OnScreen(), serials, now, created);
    }
  }

  lemma NoBurst(keys: seq<bool>)
    requires |keys| == 26
    ensures KeysAfter(keys, []) == keys && Timers([]) == 0
  {}

  lemma ShootInFlight(w: World, serials: seq<nat>, now: nat, created: nat)
    requires Sane(w) && InFlight(w.letters, serials, now, created)
    ensures InFlight(Shoot(w).letters, serials, now, created)
    ensures var v := Shoot(w); |v.letters| == |w.letters| && v.hit == w.hit && v.miss == w.miss && v.tick == w.tick
  {
    VolleyInFlight(w.letters, w.keys, serials, now, created);
  }

  lemma NoTicks(w: World, from: nat)
    requires |w.keys| == 26
    ensures Ticks(w, from, []) == w
  {}

  lemma TargetInRange(ls: seq<Letter>, keys: seq<bool>, i: nat)
    requires |keys| == 26 && Texts(ls) && Target(ls, keys, i)
    ensures i < |ls| && 0 <= ls[i].text < 26 && keys[ls[i].text] && ls[i].v != RISE
  {}

  lemma ShotCounts(ls: seq<Letter>, keys: seq<bool>, i: nat)
    requires |keys| == 26 && Texts(ls) && Target(ls, keys, i)
    ensures i < |ls| && 0 <= ls[i].text < 26
    ensures var ls', keys' := ls[i := Shot(ls[i])], keys[ls[i].text := false];
            && Texts(ls') && Volley(ls', keys') == Volley(ls, keys) && KeysLeft(ls', keys') == KeysLeft(ls, keys)
            && KeysDown(keys') == KeysDown(keys) - 1 && Rising(ls') == Rising(ls) + 1
  {
    TargetInRange(ls, keys, i);
    ShotKeepsVolley(ls, keys, i);
    KeyReleased(keys, ls[i].text);
    OneMoreRising(ls, i);
  }

  lemma PickedUpdate(letters: seq<Letter>, live: seq<nat>, i: nat, l: Letter)
    requires Distinct(live) && i < |live| && forall j :: 0 <= j < |live| ==> live[j] < |letters|
    ensures Picked(letters[live[i] := l], live) == Picked(letters, live)[i := l]
            && Picked(letters, live)[i] == letters[live[i]]
  {}

  lemma TextsUpdate(ls: seq<Letter>, i: nat)
    requires Texts(ls) && i < |ls|
    ensures Texts(ls[i := Shot(ls[i])])
  {}

  /** A tick at which the frame rate is measured, and two of them, are among those from `from` on. */
  ghost predicate HalfSecond(from: nat, to: nat) { exists t :: from <= t < to && t % 50 == 0 }
  ghost predicate HalfSeconds(from: nat, to: nat) { exists t, u :: from <= t < u < to && t % 50 == 0 && u % 50 == 0 }

  /** The frames drawn and the rate shown after these ticks: the first measurement finds those drawn
      before, up to 30 a second, and every later one none. */
  ghost predicate Measured(from: nat, to: nat, drawn: nat, fps: int, drawn': nat, fps': int) {
    && drawn' == (if HalfSecond(from, to) then 0 else drawn)
    && fps' == if HalfSeconds(from, to) then 1
               else if HalfSecond(from, to) then if drawn <= 14 then 2 * drawn + 1 else 30
               else fps
  }

  lemma NothingMeasured(from: nat, drawn: nat, fps: int)
    ensures Measured(from, from, drawn, fps, drawn, fps)
  {}

  lemma MeasuredStep(from: nat, now: nat, drawn: nat, fps: int, drawn': nat, fps': int)
    requires from <= now && Measured(from, now, drawn, fps, drawn', fps')
    ensures now % 50 != 0 ==> Measured(from, now + 1, drawn, fps, drawn', fps')
    ensures now % 50 == 0 ==>
              Measured(from, now + 1, drawn, fps, 0, if drawn' * 2 + 1 > 30 then 30 else drawn' * 2 + 1)
  {
    assert HalfSecond(from, now + 1) <==> HalfSecond(from, now) || now % 50 == 0;
    assert HalfSeconds(from, now + 1) <==> HalfSeconds(from, now) || (HalfSecond(from, now) && now % 50 == 0);
  }

  lemma StartInFlight()
    ensures InFlight([], [], 0, 0)
  {}

  lemma StayingOf(ls: seq<Letter>, serials: seq<nat>, now: nat, created: nat)
    requires InFlight(ls, serials, now, created)
    ensures |serials| == |ls| && forall j :: 0 <= j < |Staying(ls)| ==> Staying(ls)[j] < |serials|
  {}

  lemma WithFirst(list: seq<nat>)
    ensures forall n: nat :: With(list, 0, n) == [n] + list
  {
    forall n: nat ensures With(list, 0, n) == [n] + list {}
  }

  lemma SurvivorTexts(ls: seq<Letter>)
    requires Texts(ls)
    ensures Texts(Survivors(ls))
  {}

  lemma NoneCounted(ls: seq<Letter>)
    ensures FlownOff(ls[..0]) == 0 && FallenOff(ls[..0]) == 0
  {}

  lemma StepCounts(ls: seq<Letter>, i: nat)
    requires i < |ls|
    ensures var l := Advanced(ls[i]);
            && FlownOff(ls[..i + 1]) - FlownOff(ls[..i]) == (if OffScreen(l) && l.x < 0.0 then 1 else 0)
            && FallenOff(ls[..i + 1]) - FallenOff(ls[..i]) == (if OffScreen(l) && !(l.x < 0.0) then 1 else 0)
  {
    assert ls[..i + 1][..i] == ls[..i];
  }

  /** How many of the first i letters stay. */
  function Place(ls: seq<Letter>, i: nat): nat
    requires i <= |ls|
  {
    |Staying(ls[..i])|
  }

  /** The nodes on the list when the first i letters are dealt with. */
  function Remaining(live: seq<nat>, ls: seq<Letter>, i: nat): seq<nat>
    requires i <= |live| == |ls|
  {
    Picked(live, Staying(ls[..i])) + live[i..]
  }

  lemma RemainingAtStart(live: seq<nat>, ls: seq<Letter>)
    requires |live| == |ls|
    ensures Remaining(live, ls, 0) == live
  {
    assert ls[..0] == [] && Picked(live, []) + live[0..] == live;
  }

  /** The list before and after one letter is dealt with. */
  lemma StepLists(live: seq<nat>, ls: seq<Letter>, i: nat)
    requires |live| == |ls| && i < |ls|
    ensures var list, k := Remaining(live, ls, i), Place(ls, i);
            && k < |list| && list[k] == live[i]
            && NextOf(list, k) == (if i + 1 < |live| then live[i + 1] else NULL)
            && Remaining(live, ls, i + 1) == if OffScreen(Advanced(ls[i])) then Without(list, k) else list
  {
    var at := Staying(ls[..i]);
    assert ls[..i + 1][..i] == ls[..i];
    assert Staying(ls[..i + 1]) == at + if OffScreen(Advanced(ls[i])) then [] else [i];
    hide Staying;
    if OffScreen(Advanced(ls[i])) {
      WithoutMiddle(Picked(live, at), live, i);
    } else {
      PickedSnoc(live, at, i);
    }
  }

  lemma PickedSnoc(live: seq<nat>, at: seq<nat>, i: nat)
    requires i < |live| && forall j :: 0 <= j < |at| ==> at[j] < |live|
    ensures Picked(live, at + [i]) + live[i + 1..] == Picked(live, at) + live[i..]
  {
    assert Picked(live, at + [i]) == Picked(live, at) + [live[i]];
  }

  lemma WithoutMiddle(front: seq<nat>, live: seq<nat>, i: nat)
    requires i < |live|
    ensures Without(front + live[i..], |front|) == front + live[i + 1..]
  {}
}
