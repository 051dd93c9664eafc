/** A map whose entries are removed by timers. An insert writes the entry and then spawns its timer;
between the two, and at any other point, other inserts, removals and timers may run.
*/
module ExpireMap {
  import opened Results

  type Instant = int

  datatype Timer<K> = Timer(key: K, due: Instant)

  /** `expiry` is what the latest insert of the key asked for; the stored map does not hold it. */
  datatype Entry<V> = Entry(value: V, expiry: Option<Instant>)

  /** `spawning` are the timers of inserts that have written their entry but not spawned the timer yet. */
  datatype Timed<!K, V> = Timed(now: Instant, entries: map<K, Entry<V>>, spawning: multiset<Timer<K>>, timers: multiset<Timer<K>>)

  datatype Step<K, V> =
    | Put(key: K, value: V, expiry: Option<Instant>)
    | Spawn(timer: Timer<K>)
    | Change(key: K, value: V)
    | Remove(key: K)
    | Fire(timer: Timer<K>)
    | Tick(to: Instant)

  predicate Enabled<K, V>(s: Timed<K, V>, step: Step<K, V>) {
    match step
    case Put(_, _, _) => true
    case Spawn(t) => t in s.spawning
    case Change(k, _) => k in s.entries
    case Remove(_) => true
    case Fire(t) => t in s.timers && t.due <= s.now
    case Tick(to) => s.now <= to
  }

  function Apply<K, V>(s: Timed<K, V>, step: Step<K, V>): Timed<K, V>
    requires Enabled(s, step)
  {
    match step
    case Put(k, v, expiry) =>
      s.(entries := s.entries[k := Entry(v, expiry)],
         spawning := if expiry.Some? then s.spawning + multiset{Timer(k, expiry.value)} else s.spawning)
    case Spawn(t) => s.(spawning := s.spawning - multiset{t}, timers := s.timers + multiset{t})
    case Change(k, v) => s.(entries := s.entries[k := s.entries[k].(value := v)])
    case Remove(k) => s.(entries := s.entries - {k})
    case Fire(t) => s.(timers := s.timers - multiset{t}, entries := s.entries - {t.key})
    case Tick(to) => s.(now := to)
  }

  /** The timer will still fire, or will once it is spawned. */
  predicate Outstanding<K, V>(s: Timed<K, V>, t: Timer<K>) {
    t in s.spawning || t in s.timers
  }

  /** An entry that is to expire has a timer. */
  ghost predicate Inv<K, V>(s: Timed<K, V>) {
    forall k :: k in s.entries && s.entries[k].expiry.Some? ==> Outstanding(s, Timer(k, s.entries[k].expiry.value))
  }

  lemma StepKeepsInv<K, V>(s: Timed<K, V>, step: Step<K, V>)
    requires Inv(s) && Enabled(s, step)
    ensures Inv(Apply(s, step))
  {
    var t := Apply(s, step);
    forall k | k in t.entries && t.entries[k].expiry.Some?
      ensures Outstanding(t, Timer(k, t.entries[k].expiry.value))
    {
      if step.Put? && step.key == k {
      } else {
        assert Outstanding(s, Timer(k, s.entries[k].expiry.value));
      }
    }
  }

  predicate Possible<K, V>(s: Timed<K, V>, run: seq<Step<K, V>>)
    decreases |run|
  {
    run == [] || (Enabled(s, run[0]) && Possible(Apply(s, run[0]), run[1..]))
  }

  function After<K, V>(s: Timed<K, V>, run: seq<Step<K, V>>): Timed<K, V>
    requires Possible(s, run)
    decreases |run|
  {
    if run == [] then s else After(Apply(s, run[0]), run[1..])
  }

  lemma RunFrom<K, V>(s: Timed<K, V>, step: Step<K, V>, rest: seq<Step<K, V>>)
    requires Enabled(s, step) && Possible(Apply(s, step), rest)
    ensures Possible(s, [step] + rest) && After(s, [step] + rest) == After(Apply(s, step), rest)
  {
    assert ([step] + rest)[1..] == rest;
  }

  lemma {:induction false} RunKeepsInv<K, V>(s: Timed<K, V>, run: seq<Step<K, V>>)
    requires Inv(s) && Possible(s, run)
    ensures Inv(After(s, run)) && s.now <= After(s, run).now
    decreases |run|
  {
    if run != [] {
      StepKeepsInv(s, run[0]);
      RunKeepsInv(Apply(s, run[0]), run[1..]);
    }
  }

  /** All timers due by `t` have been spawned and have fired. */
  ghost predicate SettledBy<K(!new), V>(s: Timed<K, V>, t: Instant) {
    forall timer :: Outstanding(s, timer) ==> timer.due > t
  }

  /** Once the timers due by `t` have fired, no key is left whose latest insert expires by `t`, however
      inserts, removals and timers were interleaved. */
  lemma ExpiredEntriesAreGone<K(!new), V>(s: Timed<K, V>, run: seq<Step<K, V>>, t: Instant, k: K)
    requires Inv(s) && Possible(s, run) && SettledBy(After(s, run), t)
    requires k in After(s, run).entries && After(s, run).entries[k].expiry.Some?
    ensures After(s, run).entries[k].expiry.value > t
  {
    RunKeepsInv(s, run);
    assert Outstanding(After(s, run), Timer(k, After(s, run).entries[k].expiry.value));
  }

  // ---------- entries that vanish early ----------

  predicate Touches<K(==), V>(step: Step<K, V>, k: K) {
    match step
    case Put(key, _, _) => key == k
    case Remove(key) => key == k
    case _ => false
  }

  ghost predicate Untouched<K(!new), V(!new)>(run: seq<Step<K, V>>, k: K) {
    forall i :: 0 <= i < |run| ==> !Touches(run[i], k)
  }

  /** `k` is present and its own expiry, if it has one, is still to come. */
  predicate Alive<K, V>(s: Timed<K, V>, k: K) {
    k in s.entries && (s.entries[k].expiry.Some? ==> s.now < s.entries[k].expiry.value)
  }

  /** A timer of an older insert of `k` that is due before the latest insert expires. */
  predicate Stale<K, V>(s: Timed<K, V>, k: K, due: Instant)
    requires k in s.entries
  {
    Outstanding(s, Timer(k, due)) && (s.entries[k].expiry.Some? ==> due < s.entries[k].expiry.value)
  }

  /** Nobody touches `k` again, and it vanishes before its time. */
  ghost predicate VanishesEarly<K(!new), V(!new)>(s: Timed<K, V>, k: K, run: seq<Step<K, V>>)
    requires k in s.entries
  {
    && Possible(s, run)
    && Untouched(run, k)
    && k !in After(s, run).entries
    && (s.entries[k].expiry.Some? ==> After(s, run).now < s.entries[k].expiry.value)
  }

  ghost predicate Fresh<K(!new), V>(s: Timed<K, V>, k: K) {
    k in s.entries && forall due :: !Stale(s, k, due)
  }

  lemma UntouchedStays<K(!new), V>(s: Timed<K, V>, k: K, step: Step<K, V>)
    requires Fresh(s, k) && Alive(s, k) && Enabled(s, step) && !Touches(step, k)
    ensures Fresh(Apply(s, step), k) && Apply(s, step).entries[k].expiry == s.entries[k].expiry
  {
    var t := Apply(s, step);
    if step.Fire? {
      assert step.timer == Timer(step.timer.key, step.timer.due);
      assert !Stale(s, k, step.timer.due);
    }
    forall due
      ensures !Stale(t, k, due)
    {
      assert !Stale(s, k, due);
    }
  }

  lemma {:induction false} NoStaleNoVanishing<K(!new), V(!new)>(s: Timed<K, V>, k: K, run: seq<Step<K, V>>)
    requires Fresh(s, k)
    ensures !VanishesEarly(s, k, run)
    decreases |run|
  {
    if run != [] && VanishesEarly(s, k, run) {
      LaterNow(s, run);
      assert !Touches(run[0], k);
      UntouchedStays(s, k, run[0]);
      assert forall i :: 0 <= i < |run[1..]| ==> run[1..][i] == run[i + 1];
      NoStaleNoVanishing(Apply(s, run[0]), k, run[1..]);
    }
  }

  lemma {:induction false} LaterNow<K, V>(s: Timed<K, V>, run: seq<Step<K, V>>)
    requires Possible(s, run)
    ensures s.now <= After(s, run).now
    decreases |run|
  {
    if run != [] {
      LaterNow(Apply(s, run[0]), run[1..]);
    }
  }

  lemma SpawnedFires<K(!new), V(!new)>(s: Timed<K, V>, k: K, timer: Timer<K>) returns (run: seq<Step<K, V>>)
    requires Alive(s, k) && timer.key == k && Stale(s, k, timer.due) && timer in s.timers
    ensures VanishesEarly(s, k, run)
  {
    var to := if s.now < timer.due then timer.due else s.now;
    var tick: Step<K, V> := Tick(to);
    var fire: Step<K, V> := Fire(timer);
    var s1 := Apply(s, tick);
    RunFrom(s1, fire, []);
    assert [fire] + [] == [fire];
    RunFrom(s, tick, [fire]);
    run := [tick] + [fire];
  }

  lemma StaleFires<K(!new), V(!new)>(s: Timed<K, V>, k: K, due: Instant) returns (run: seq<Step<K, V>>)
    requires Alive(s, k) && Stale(s, k, due)
    ensures VanishesEarly(s, k, run)
  {
    var timer := Timer(k, due);
    if timer in s.timers {
      run := SpawnedFires(s, k, timer);
    } else {
      var later := SpawnedFires(Apply(s, Spawn(timer)), k, timer);
      RunFrom(s, Spawn(timer), later);
      run := [Spawn(timer)] + later;
    }
  }

  /** An entry that nobody touches can vanish before it expires exactly if the timer of an older insert of
      its key is still outstanding. */
  lemma VanishesEarlyExactly<K(!new), V(!new)>(s: Timed<K, V>, k: K)
    requires Alive(s, k)
    ensures (exists run :: VanishesEarly(s, k, run)) <==> exists due :: Stale(s, k, due)
  {
    if due :| Stale(s, k, due) {
      var run := StaleFires(s, k, due);
    } else {
      forall run
        ensures !VanishesEarly(s, k, run)
      {
        NoStaleNoVanishing(s, k, run);
      }
    }
  }

  lemma {:induction false} UntouchedKeepsExpiry<K(!new), V(!new)>(s: Timed<K, V>, k: K, run: seq<Step<K, V>>)
    requires Possible(s, run) && Untouched(run, k) && k in After(s, run).entries
    ensures k in s.entries && After(s, run).entries[k].expiry == s.entries[k].expiry
    decreases |run|
  {
    if run != [] {
      assert !Touches(run[0], k);
      assert forall i :: 0 <= i < |run[1..]| ==> run[1..][i] == run[i + 1];
      UntouchedKeepsExpiry(Apply(s, run[0]), k, run[1..]);
    }
  }

  /** A key inserted with an expiry, and not touched since, is gone when the timers due by then have fired. */
  lemma InsertedExpires<K(!new), V(!new)>(s: Timed<K, V>, k: K, v: V, expiry: Instant, run: seq<Step<K, V>>)
    requires Inv(s) && Possible(Apply(s, Put(k, v, Some(expiry))), run) && Untouched(run, k)
    requires SettledBy(After(Apply(s, Put(k, v, Some(expiry))), run), expiry)
    ensures k !in After(Apply(s, Put(k, v, Some(expiry))), run).entries
  {
    var t := Apply(s, Put(k, v, Some(expiry)));
    StepKeepsInv(s, Put(k, v, Some(expiry)));
    if k in After(t, run).entries {
      UntouchedKeepsExpiry(t, k, run);
      ExpiredEntriesAreGone(t, run, expiry, k);
    }
  }

  // ---------- the map itself ----------

  class ExpireMap<K(==), V> {
    var map_: map<K, V>
    var timers: multiset<Timer<K>>
    ghost var expiries: map<K, Option<Instant>>

    ghost predicate Valid()
      reads this
    {
      map_.Keys == expiries.Keys
    }

    ghost function At(now: Instant): Timed<K, V>
      requires Valid()
      reads this
    {
      Timed(now, map k | k in map_ :: Entry(map_[k], expiries[k]), multiset{}, timers)
    }

    constructor (initial: map<K, V>)
      ensures Valid() && map_ == initial && timers == multiset{}
      ensures forall now :: Inv(At(now))
    {
      map_ := initial;
      timers := multiset{};
      expiries := map k | k in initial :: None;
    }

    method Insert(key: K, value: V, expiry: Option<Instant>)
      requires Valid()
      modifies this
      ensures Valid() && map_ == old(map_)[key := value]
      ensures timers == if expiry.Some? then old(timers) + multiset{Timer(key, expiry.value)} else old(timers)
      ensures forall now :: Possible(old(At(now)), InsertSteps(key, value, expiry))
                            && At(now) == After(old(At(now)), InsertSteps(key, value, expiry))
    {
      map_ := map_[key := value];
      expiries := expiries[key := expiry];
      if expiry.Some? {
        timers := timers + multiset{Timer(key, expiry.value)};
      }
      forall now
        ensures Possible(old(At(now)), InsertSteps(key, value, expiry))
                && At(now) == After(old(At(now)), InsertSteps(key, value, expiry))
      {
        InsertInTwoSteps(old(At(now)), key, value, expiry);
      }
    }

    method Contains(key: K) returns (r: bool)
      ensures r <==> key in map_
    {
      r := key in map_;
    }

    method Remove(key: K) returns (r: Option<V>)
      requires Valid()
      modifies this`map_, this`expiries
      ensures Valid() && map_ == old(map_) - {key} && r == (if key in old(map_) then Some(old(map_)[key]) else None)
      ensures forall now :: At(now) == Apply(old(At(now)), Step.Remove(key))
    {
      r := if key in map_ then Some(map_[key]) else None;
      map_ := map_ - {key};
      expiries := expiries - {key};
    }

    /** The end of a spawned task. */
    method FireTimer(timer: Timer<K>, ghost now: Instant)
      requires Valid() && timer in timers && timer.due <= now
      modifies this
      ensures Valid() && At(now) == Apply(old(At(now)), Fire(timer))
      ensures map_ == old(map_) - {timer.key} && timers == old(timers) - multiset{timer}
    {
      timers := timers - multiset{timer};
      map_ := map_ - {timer.key};
      expiries := expiries - {timer.key};
    }
  }

  function InsertSteps<K, V>(key: K, value: V, expiry: Option<Instant>): seq<Step<K, V>> {
    if expiry.Some? then [Put(key, value, expiry), Spawn(Timer(key, expiry.value))] else [Put(key, value, expiry)]
  }

  lemma InsertInTwoSteps<K, V>(s: Timed<K, V>, key: K, value: V, expiry: Option<Instant>)
    requires s.spawning == multiset{}
    ensures Possible(s, InsertSteps(key, value, expiry))
    ensures After(s, InsertSteps(key, value, expiry))
            == s.(entries := s.entries[key := Entry(value, expiry)],
                  timers := if expiry.Some? then s.timers + multiset{Timer(key, expiry.value)} else s.timers)
  {
    var put: Step<K, V> := Put(key, value, expiry);
    var s1 := Apply(s, put);
    if expiry.Some? {
      var spawn: Step<K, V> := Spawn(Timer(key, expiry.value));
      RunFrom(s1, spawn, []);
      assert [spawn] + [] == [spawn];
      RunFrom(s, put, [spawn]);
      assert [put] + [spawn] == InsertSteps(key, value, expiry);
    } else {
      RunFrom(s, put, []);
      assert [put] + [] == InsertSteps(key, value, expiry);
    }
  }
}
