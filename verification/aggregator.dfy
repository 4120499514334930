/**
 The mood aggregator: one `mood/in` message in, at most one `mood/out` out.

 The message lists users with the mood each is in. For every listed user,
 in order, the aggregator fetches the user's profile and, when the profile
 holds complete settings for that mood (Celsius temperature, colour
 temperature in kelvin, luminosity), adds them to running totals. The room
 then receives the averages: Celsius to one decimal, the other two rounded
 to whole numbers. Nothing is published when no user contributes, and
 nothing when any store call fails: the failure aborts the whole message.

 The store is a parameter (the reply `findOne` gives for each user id, and
 whether connecting succeeded); numbers are exact reals.
 */
module Aggregator {
  import opened Optional
  import Topics

  // ---------------------------------------------------------------------------
  // Inputs.

  /** One entry of the payload, `{id, mood}`. */
  datatype MoodRequest = MoodRequest(id: string, mood: string)

  /** The payload: unparsable, parsed but not an array, or an array whose
      `None` entries are `null` (reading `user.id` on one throws). */
  datatype MoodPayload = BadJson | NotArray | Users(users: seq<Option<MoodRequest>>)

  /** A mood's settings in a profile; `None` is `null` or a missing field. */
  datatype MoodSettings = MoodSettings(tempC: Option<real>, tempK: Option<real>, luminosity: Option<real>)

  /** What `findOne({user_id})` gives: an exception, no document, or a
      document whose `moods` field may be missing. */
  datatype Reply = Threw | NoDoc | Doc(moods: Option<map<string, MoodSettings>>)

  /** The store during one message: the reply for each user id, and whether
      `connect()` succeeded. */
  datatype Store = Store(connectOk: bool, findOne: string -> Reply)

  // ---------------------------------------------------------------------------
  // Filtering and totals.

  /** The three values of a user's settings, when the user contributes. */
  datatype Values = Values(c: real, k: real, lum: real)

  /** The values a request contributes: a document exists, it has `moods`,
      the requested mood is present, and none of the three fields is null
      (zero is a value). */
  function Contribution(r: Reply, mood: string): (v: Option<Values>)
    ensures v.Some? <==>
      && r.Doc? && r.moods.Some? && mood in r.moods.value
      && r.moods.value[mood].tempC.Some?
      && r.moods.value[mood].tempK.Some?
      && r.moods.value[mood].luminosity.Some?
  {
    if !r.Doc? || r.moods.None? || mood !in r.moods.value then None
    else
      var s := r.moods.value[mood];
      if s.tempC.None? || s.tempK.None? || s.luminosity.None? then None
      else Some(Values(s.tempC.value, s.tempK.value, s.luminosity.value))
  }

  datatype Totals = Totals(sumC: real, sumK: real, sumLum: real, count: nat)

  const Zero: Totals := Totals(0.0, 0.0, 0.0, 0)

  function Add(t: Totals, v: Values): Totals {
    Totals(t.sumC + v.c, t.sumK + v.k, t.sumLum + v.lum, t.count + 1)
  }

  /** A request the loop can process without throwing: not `null`, and its
      lookup does not fail. */
  predicate Answered(store: Store, u: Option<MoodRequest>) {
    u.Some? && !store.findOne(u.value.id).Threw?
  }

  /** The loop over the payload in order, as a fold over the prefix; `None`
      when some request throws. */
  function Accumulate(store: Store, users: seq<Option<MoodRequest>>): (t: Option<Totals>)
    ensures t.Some? <==> forall i :: 0 <= i < |users| ==> Answered(store, users[i])
    ensures t.Some? ==> t.value.count <= |users|
    decreases |users|
  {
    if |users| == 0 then Some(Zero)
    else
      var n := |users| - 1;
      var prev := Accumulate(store, users[..n]);
      var u := users[n];
      assert forall i :: 0 <= i < n ==> users[..n][i] == users[i];
      if prev.None? || !Answered(store, u) then None
      else match Contribution(store.findOne(u.value.id), u.value.mood)
        case None => prev
        case Some(v) => Some(Add(prev.value, v))
  }

  /** The contributing requests, as a reference definition independent of the fold. */
  function Contributors(store: Store, users: seq<Option<MoodRequest>>): nat
    decreases |users|
  {
    if |users| == 0 then 0
    else
      var u := users[0];
      var here := if u.Some? && Contribution(store.findOne(u.value.id), u.value.mood).Some? then 1 else 0;
      here + Contributors(store, users[1..])
  }

  /** The count is the number of contributing requests, counting a user listed
      twice twice. */
  lemma {:induction false} CountIsContributors(store: Store, users: seq<Option<MoodRequest>>)
    requires Accumulate(store, users).Some?
    ensures Accumulate(store, users).value.count == Contributors(store, users)
    decreases |users|
  {
    if |users| > 0 {
      var n := |users| - 1;
      CountIsContributors(store, users[..n]);
      ContributorsSnoc(store, users);
    }
  }

  lemma {:induction false} ContributorsSnoc(store: Store, users: seq<Option<MoodRequest>>)
    requires |users| > 0
    ensures var u := users[|users| - 1];
      Contributors(store, users) == Contributors(store, users[..|users| - 1])
        + (if u.Some? && Contribution(store.findOne(u.value.id), u.value.mood).Some? then 1 else 0)
    decreases |users|
  {
    if |users| > 1 {
      ContributorsSnoc(store, users[1..]);
      assert users[1..][..|users| - 2] == users[..|users| - 1][1..];
    }
  }

  /** Totals over a concatenation add up. */
  lemma {:induction false} ContributorsAppend(store: Store, a: seq<Option<MoodRequest>>, b: seq<Option<MoodRequest>>)
    ensures Contributors(store, a + b) == Contributors(store, a) + Contributors(store, b)
    decreases |a|
  {
    if |a| > 0 {
      assert (a + b)[1..] == a[1..] + b;
      ContributorsAppend(store, a[1..], b);
    } else {
      assert a + b == b;
    }
  }

  /** A request listed twice contributes twice. */
  lemma DuplicateCountsTwice(store: Store, u: Option<MoodRequest>)
    ensures Contributors(store, [u, u]) == 2 * Contributors(store, [u])
  {
    ContributorsAppend(store, [u], [u]);
    assert [u] + [u] == [u, u];
  }

  // ---------------------------------------------------------------------------
  // Rounding.

  /** `Math.round`: the nearest integer, halves rounded up. */
  function Round(x: real): (r: int)
    ensures r as real - 0.5 <= x < r as real + 0.5
  {
    (x + 0.5).Floor
  }

  /** The rounded value is the only integer within half of `x` (halves up). */
  lemma RoundUnique(x: real, n: int)
    requires n as real - 0.5 <= x < n as real + 0.5
    ensures Round(x) == n
  {
  }

  /** Rounding stays within integer bounds of its argument. */
  lemma RoundWithin(x: real, lo: int, hi: int)
    requires lo as real <= x <= hi as real
    ensures lo <= Round(x) <= hi
  {
  }

  /** `Number(x.toFixed(1))`: the nearest multiple of a tenth. `toFixed`
      rounds the magnitude, halves up, and keeps the sign, so halves round
      away from zero. */
  function Fixed1(x: real): (y: real)
    ensures IsWhole(y * 10.0)
    ensures -0.05 <= y - x <= 0.05
    ensures x >= 0.0 ==> -0.05 < y - x
    ensures x < 0.0 ==> y - x < 0.05
  {
    var n := if x < 0.0 then -Round(-x * 10.0) else Round(x * 10.0);
    assert -0.5 <= n as real - x * 10.0 <= 0.5;
    assert n as real / 10.0 - x == (n as real - x * 10.0) / 10.0;
    n as real / 10.0
  }

  /** No multiple of a tenth is closer to `x` than `Fixed1(x)`, itself a
      multiple of a tenth. */
  lemma Fixed1Nearest(x: real, m: int)
    ensures Abs(Fixed1(x) - x) <= Abs(m as real / 10.0 - x)
  {
    var d := 10.0 * x;
    var n := if x < 0.0 then -Round(-x * 10.0) else Round(x * 10.0);
    assert Fixed1(x) == n as real / 10.0;
    assert -0.5 <= n as real - d <= 0.5;
    assert Fixed1(x) - x == (n as real - d) / 10.0;
    assert m as real / 10.0 - x == (m as real - d) / 10.0;
    if m > n {
      assert m as real >= n as real + 1.0;
    } else if m < n {
      assert m as real <= n as real - 1.0;
    }
    assert Abs(n as real - d) <= Abs(m as real - d);
  }

  function Abs(x: real): real {
    if x < 0.0 then -x else x
  }

  // ---------------------------------------------------------------------------
  // Averages.

  /** The published `{temp_c, temp_k, luminosity}`. */
  datatype Avg = Avg(tempC: real, tempK: int, luminosity: int)

  function Average(t: Totals): Avg
    requires t.count > 0
  {
    var n := t.count as real;
    Avg(Fixed1(t.sumC / n), Round(t.sumK / n), Round(t.sumLum / n))
  }

  /** Componentwise bounds on a user's three values. */
  predicate InRange(v: Values, lo: Values, hi: Values) {
    && lo.c <= v.c <= hi.c
    && lo.k <= v.k <= hi.k
    && lo.lum <= v.lum <= hi.lum
  }

  /** Every contributing request's values lie within the bounds. */
  predicate AllInRange(store: Store, users: seq<Option<MoodRequest>>, lo: Values, hi: Values) {
    forall i :: 0 <= i < |users| && users[i].Some? ==>
      var v := Contribution(store.findOne(users[i].value.id), users[i].value.mood);
      v.Some? ==> InRange(v.value, lo, hi)
  }

  /** `n` values each within `[lo, hi]` sum to within `[n * lo, n * hi]`. */
  predicate SumWithin(n: nat, sum: real, lo: real, hi: real) {
    n as real * lo <= sum <= n as real * hi
  }

  predicate SumsWithin(t: Totals, lo: Values, hi: Values) {
    && SumWithin(t.count, t.sumC, lo.c, hi.c)
    && SumWithin(t.count, t.sumK, lo.k, hi.k)
    && SumWithin(t.count, t.sumLum, lo.lum, hi.lum)
  }

  lemma AddOneWithin(n: nat, sum: real, x: real, lo: real, hi: real)
    requires SumWithin(n, sum, lo, hi) && lo <= x <= hi
    ensures SumWithin(n + 1, sum + x, lo, hi)
  {
    assert (n + 1) as real * lo == n as real * lo + lo;
    assert (n + 1) as real * hi == n as real * hi + hi;
  }

  lemma AddWithin(t: Totals, v: Values, lo: Values, hi: Values)
    requires SumsWithin(t, lo, hi) && InRange(v, lo, hi)
    ensures SumsWithin(Add(t, v), lo, hi)
  {
    AddOneWithin(t.count, t.sumC, v.c, lo.c, hi.c);
    AddOneWithin(t.count, t.sumK, v.k, lo.k, hi.k);
    AddOneWithin(t.count, t.sumLum, v.lum, lo.lum, hi.lum);
  }

  /** The totals stay within the bounds of the contributing values. */
  lemma {:induction false} TotalsWithin(store: Store, users: seq<Option<MoodRequest>>, lo: Values, hi: Values)
    requires Accumulate(store, users).Some?
    requires AllInRange(store, users, lo, hi)
    ensures SumsWithin(Accumulate(store, users).value, lo, hi)
    decreases |users|
  {
    if |users| > 0 {
      var n := |users| - 1;
      var p := users[..n];
      assert AllInRange(store, p, lo, hi) by {
        forall i | 0 <= i < |p| ensures p[i] == users[i] { }
      }
      TotalsWithin(store, p, lo, hi);
      var u := users[n];
      var c := Contribution(store.findOne(u.value.id), u.value.mood);
      if c.Some? {
        AddWithin(Accumulate(store, p).value, c.value, lo, hi);
      }
    }
  }

  /** The mean of values within `[lo, hi]` is within `[lo, hi]`. */
  lemma MeanWithin(sum: real, n: real, lo: real, hi: real)
    requires n > 0.0
    requires n * lo <= sum <= n * hi
    ensures lo <= sum / n <= hi
  {
    assert sum / n - lo == (sum - n * lo) / n;
    assert hi - sum / n == (n * hi - sum) / n;
    QuotientNonNegative(sum - n * lo, n);
    QuotientNonNegative(n * hi - sum, n);
  }

  lemma QuotientNonNegative(a: real, n: real)
    requires a >= 0.0 && n > 0.0
    ensures a / n >= 0.0
  {
  }

  predicate IsWhole(x: real) {
    x == x.Floor as real
  }

  // ---------------------------------------------------------------------------
  // The message handler.

  datatype Outcome = Silent | Publish(topic: string, avg: Avg)

  /** `homeA/<room>/mood/out` */
  function OutTopic(room: string): string {
    "homeA/" + room + "/mood/out"
  }

  function OnMoodIn(topic: string, p: MoodPayload, store: Store): Outcome {
    match p
    case BadJson => Silent
    case NotArray => Silent
    case Users(users) =>
      if |users| == 0 then Silent
      else
        var room := Topics.Room(topic);
        if !store.connectOk then Silent
        else match Accumulate(store, users)
          case None => Silent
          case Some(t) => if t.count == 0 then Silent else Publish(OutTopic(room), Average(t))
  }

  // ---------------------------------------------------------------------------
  // Properties of the handler.

  /** Nothing is published exactly when the payload is not a non-empty array,
      connecting fails, any request is `null` or its lookup throws, or no
      request contributes. */
  lemma SilentCases(topic: string, p: MoodPayload, store: Store)
    ensures OnMoodIn(topic, p, store) == Silent <==>
      || !p.Users? || |p.users| == 0 || !store.connectOk
      || (exists i :: 0 <= i < |p.users| && !Answered(store, p.users[i]))
      || Accumulate(store, p.users).value.count == 0
  {
  }

  /** Otherwise one message goes to the room's `mood/out` topic with the
      averages of the contributing users: `temp_c` a whole number of tenths
      within a twentieth of the mean, the other two the rounded means. */
  lemma PublishedAverages(topic: string, users: seq<Option<MoodRequest>>, store: Store)
    requires OnMoodIn(topic, Users(users), store).Publish?
    ensures Accumulate(store, users).Some?
    ensures var t := Accumulate(store, users).value;
      var out := OnMoodIn(topic, Users(users), store);
      && t.count > 0
      && t.count == Contributors(store, users) <= |users|
      && out.topic == OutTopic(Topics.Room(topic))
      && IsWhole(out.avg.tempC * 10.0)
      && -0.05 <= out.avg.tempC - t.sumC / t.count as real <= 0.05
      && out.avg.tempK as real - 0.5 <= t.sumK / t.count as real < out.avg.tempK as real + 0.5
      && out.avg.luminosity as real - 0.5 <= t.sumLum / t.count as real < out.avg.luminosity as real + 0.5
  {
    CountIsContributors(store, users);
  }

  /** A publication carries the averages of the accumulated totals. */
  lemma PublishedIsAverage(topic: string, users: seq<Option<MoodRequest>>, store: Store)
    requires OnMoodIn(topic, Users(users), store).Publish?
    ensures Accumulate(store, users).Some? && Accumulate(store, users).value.count > 0
    ensures OnMoodIn(topic, Users(users), store).avg == Average(Accumulate(store, users).value)
  {
  }

  /** Averages of totals within whole-number bounds stay within them; the
      Celsius average is within a twentieth of its bounds. */
  lemma AverageWithin(t: Totals, lo: Values, hi: Values)
    requires t.count > 0 && SumsWithin(t, lo, hi)
    requires IsWhole(lo.k) && IsWhole(hi.k) && IsWhole(lo.lum) && IsWhole(hi.lum)
    ensures var a := Average(t);
      && lo.k <= a.tempK as real <= hi.k
      && lo.lum <= a.luminosity as real <= hi.lum
      && lo.c - 0.05 <= a.tempC <= hi.c + 0.05
  {
    var n := t.count as real;
    assert SumsWithin(t, lo, hi);
    MeanWithin(t.sumC, n, lo.c, hi.c);
    MeanWithin(t.sumK, n, lo.k, hi.k);
    MeanWithin(t.sumLum, n, lo.lum, hi.lum);
    RoundWithin(t.sumK / n, lo.k.Floor, hi.k.Floor);
    RoundWithin(t.sumLum / n, lo.lum.Floor, hi.lum.Floor);
  }

  /** With whole-number bounds on the contributing kelvin and luminosity
      values, the published averages lie within the same bounds; the Celsius
      average is within a twentieth of the bounds. */
  lemma PublishedWithinBounds(topic: string, users: seq<Option<MoodRequest>>, store: Store, lo: Values, hi: Values)
    requires OnMoodIn(topic, Users(users), store).Publish?
    requires AllInRange(store, users, lo, hi)
    requires IsWhole(lo.k) && IsWhole(hi.k) && IsWhole(lo.lum) && IsWhole(hi.lum)
    ensures var a := OnMoodIn(topic, Users(users), store).avg;
      && lo.k <= a.tempK as real <= hi.k
      && lo.lum <= a.luminosity as real <= hi.lum
      && lo.c - 0.05 <= a.tempC <= hi.c + 0.05
  {
    PublishedIsAverage(topic, users, store);
    TotalsWithin(store, users, lo, hi);
    AverageWithin(Accumulate(store, users).value, lo, hi);
  }

  /** A request that throws aborts the message even after other users have
      contributed: there is never a partial average. */
  lemma ThrowAborts(topic: string, users: seq<Option<MoodRequest>>, store: Store, i: nat)
    requires i < |users| && !Answered(store, users[i])
    ensures OnMoodIn(topic, Users(users), store) == Silent
  {
  }

  /** The profile store of the worked example: two users with settings for
      one mood each, everyone else without a profile. */
  function ExampleReply(id: string): Reply {
    if id == "ann" then Doc(Some(map["relax" := MoodSettings(Some(20.0), Some(293.0), Some(40.0))]))
    else if id == "bob" then Doc(Some(map["focus" := MoodSettings(Some(24.0), Some(297.0), Some(60.0))]))
    else NoDoc
  }

  const ExampleUsers: seq<Option<MoodRequest>> := [Some(MoodRequest("ann", "relax")), Some(MoodRequest("bob", "focus"))]

  lemma ExampleTotals()
    ensures Accumulate(Store(true, ExampleReply), ExampleUsers) == Some(Totals(44.0, 590.0, 100.0, 2))
  {
    var store := Store(true, ExampleReply);
    var us := ExampleUsers;
    assert us[..1][..0] == [];
    assert Accumulate(store, us[..0]) == Some(Zero);
    assert Contribution(ExampleReply("ann"), "relax") == Some(Values(20.0, 293.0, 40.0));
    assert Accumulate(store, us[..1]) == Some(Totals(20.0, 293.0, 40.0, 1));
    assert Contribution(ExampleReply("bob"), "focus") == Some(Values(24.0, 297.0, 60.0));
  }

  /** Whatever is published goes to the room's `mood/out` topic and carries
      the averages of the totals. */
  lemma PublishedWhen(topic: string, users: seq<Option<MoodRequest>>, store: Store, t: Totals)
    requires |users| > 0 && store.connectOk
    requires Accumulate(store, users) == Some(t) && t.count > 0
    ensures OnMoodIn(topic, Users(users), store) == Publish(OutTopic(Topics.Room(topic)), Average(t))
  {
  }

  /** `{20, 293, 40}` and `{24, 297, 60}` average to `{22.0, 295, 50}`,
      published on the room's `mood/out` topic. */
  lemma TwoUserExample(room: string)
    requires room != "" && Topics.IsSegment(room)
    ensures OnMoodIn("homeA/" + room + "/mood/in", Users(ExampleUsers), Store(true, ExampleReply))
         == Publish("homeA/" + room + "/mood/out", Avg(22.0, 295, 50))
  {
    var topic := "homeA/" + room + "/mood/in";
    var parts := ["homeA", room, "mood", "in"];
    assert parts[2..] == ["mood", "in"] && parts[3..] == ["in"] && parts[1..] == [room] + parts[2..];
    assert Topics.Join(parts[2..]) == "mood/in";
    assert Topics.Join(parts[1..]) == room + "/mood/in";
    assert Topics.Join(parts) == topic;
    Topics.RoomOfTopic(parts);
    ExampleTotals();
    ExampleAverage();
    PublishedWhen(topic, ExampleUsers, Store(true, ExampleReply), Totals(44.0, 590.0, 100.0, 2));
  }

  lemma ExampleAverage()
    ensures Average(Totals(44.0, 590.0, 100.0, 2)) == Avg(22.0, 295, 50)
  {
    assert 44.0 / 2.0 == 22.0 && 590.0 / 2.0 == 295.0 && 100.0 / 2.0 == 50.0;
    RoundUnique(295.0, 295);
    RoundUnique(50.0, 50);
    RoundUnique(220.0, 220);
    assert Fixed1(22.0) == 22.0;
  }

  // ---------------------------------------------------------------------------
  // The loop as written.

  /** The per-user loop: a `null` entry or a failed lookup throws (`ok` false);
      otherwise contributing users are added to the totals. */
  method AccumulateLoop(store: Store, users: seq<Option<MoodRequest>>) returns (ok: bool, t: Totals)
    ensures ok <==> Accumulate(store, users).Some?
    ensures ok ==> t == Accumulate(store, users).value
  {
    t := Zero;
    var i := 0;
    while i < |users|
      invariant 0 <= i <= |users|
      invariant Accumulate(store, users[..i]) == Some(t)
    {
      assert users[..i + 1][..i] == users[..i];
      if users[i].None? {
        AbortExtends(store, users, i + 1);
        return false, t;
      }
      var user := users[i].value;
      var doc := store.findOne(user.id);
      if doc.Threw? {
        AbortExtends(store, users, i + 1);
        return false, t;
      }
      if doc.Doc? && doc.moods.Some? && user.mood in doc.moods.value {
        var s := doc.moods.value[user.mood];
        if s.tempC.Some? && s.tempK.Some? && s.luminosity.Some? {
          t := Totals(t.sumC + s.tempC.value, t.sumK + s.tempK.value, t.sumLum + s.luminosity.value, t.count + 1);
        }
      }
      i := i + 1;
    }
    assert users[..|users|] == users;
    ok := true;
  }

  /** A prefix that throws makes the whole payload throw. */
  lemma AbortExtends(store: Store, users: seq<Option<MoodRequest>>, n: nat)
    requires n <= |users|
    requires Accumulate(store, users[..n]).None?
    ensures Accumulate(store, users).None?
  {
    var i :| 0 <= i < n && !Answered(store, users[..n][i]);
    assert users[..n][i] == users[i];
  }
}
