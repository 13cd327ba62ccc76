/**
 Which threshold notices a run of quota operations sends. A notice is remembered by
 device, period start and percentage, and by nothing else.
 */
module QuotaNotices {
  import opened Common
  import opened QuotaPeriods
  import opened QuotaLedger
  import opened QuotaService

  /**
   An operation, the quota that the policy held at that moment, and the percentage whose
   notice fails to be stored if the operation tries it.
   */
  datatype Call = Call(event: Event, quota: int, failing: Option<int>)

  function Events(calls: seq<Call>): seq<Event> {
    seq(|calls|, i requires 0 <= i < |calls| => calls[i].event)
  }

  /** The operation records usage; only that looks at the thresholds. */
  predicate IsRecording(c: Call) {
    c.event.Record? && c.event.used.down >= 0 && c.event.used.up >= 0
  }

  function KeyOf(c: Call): Key
    requires IsRecording(c)
  {
    Key(c.event.device, c.event.periodType, PeriodFor(c.event.periodType, c.event.at).start)
  }

  /** The thresholds that call n finds reached: its row's usage in the table after it. */
  ghost function ReachedBy(calls: seq<Call>, n: nat): set<Notice>
    requires n < |calls|
  {
    if !IsRecording(calls[n]) then {}
    else
      var k := KeyOf(calls[n]);
      Reached(k.device, k.start, calls[n].quota, Total(UsageOf(Run(Events(calls[..n + 1])), k)), 3)
  }

  /** The notices that call n reaches and nobody has marked. */
  ghost function News(calls: seq<Call>, n: nat): set<Notice>
    requires n < |calls|
    decreases n, 0
  {
    ReachedBy(calls, n) - Marked(calls, n)
  }

  /** The notices marked by the first n calls. */
  ghost function Marked(calls: seq<Call>, n: nat): set<Notice>
    requires n <= |calls|
    decreases n
  {
    if n == 0 then {}
    else Marked(calls, n - 1) + Handled(ReachedBy(calls, n - 1) - Marked(calls, n - 1), calls[n - 1].failing)
  }

  /** The notices that call n sends. */
  ghost function SentBy(calls: seq<Call>, n: nat): set<Notice>
    requires n < |calls|
  {
    Stored(News(calls, n), calls[n].failing)
  }

  /** The percentages of the quota at which a notice is due. */
  predicate IsThreshold(percent: int) {
    percent == 80 || percent == 90 || percent == 100
  }

  // ----- In terms of the ledger -----

  /** What was recorded, up to and including call m, for the period that call m records in. */
  ghost function UsedAt(calls: seq<Call>, m: nat): int
    requires m < |calls| && IsRecording(calls[m])
  {
    Recorded(Events(calls[..m + 1]), KeyOf(calls[m])).down + Recorded(Events(calls[..m + 1]), KeyOf(calls[m])).up
  }

  /** Call m recorded usage of the device in a period with the notice's start and reached its threshold. */
  ghost predicate Reaches(calls: seq<Call>, m: nat, notice: Notice)
    requires m < |calls|
  {
    && IsRecording(calls[m])
    && KeyOf(calls[m]).device == notice.device && KeyOf(calls[m]).start == notice.start
    && calls[m].quota > 0 && 100 * UsedAt(calls, m) >= notice.percent * calls[m].quota
  }

  lemma ReachedByPercent(device: DeviceId, start: int, quota: int, used: int, notice: Notice)
    ensures notice in Reached(device, start, quota, used, 3) <==>
              && notice.device == device && notice.start == start && IsThreshold(notice.percent)
              && quota > 0 && 100 * used >= notice.percent * quota
  {
    if IsThreshold(notice.percent) {
      var i := if notice.percent == 80 then 0 else if notice.percent == 90 then 1 else 2;
      assert PERCENTS[i] == notice.percent;
    }
    assert PERCENTS[0] == 80 && PERCENTS[1] == 90 && PERCENTS[2] == 100;
  }

  lemma ReachedByIsReaches(calls: seq<Call>, m: nat, notice: Notice)
    requires m < |calls| && IsThreshold(notice.percent)
    ensures notice in ReachedBy(calls, m) <==> Reaches(calls, m, notice)
  {
    hide KeyOf, PeriodFor, Recorded, UsageOf, Run, Events;
    if IsRecording(calls[m]) {
      var k := KeyOf(calls[m]);
      UsageIsWhatWasRecorded(Events(calls[..m + 1]));
      assert UsageOf(Run(Events(calls[..m + 1])), k) == Recorded(Events(calls[..m + 1]), k);
      ReachedByPercent(k.device, k.start, calls[m].quota, Total(UsageOf(Run(Events(calls[..m + 1])), k)), notice);
    }
  }

  /** A notice of a lower percentage failed to be stored in this call before the threshold was looked at. */
  ghost predicate IsCutOff(calls: seq<Call>, m: nat, percent: int)
    requires m < |calls|
  {
    IsBehind(News(calls, m), calls[m].failing, percent)
  }

  /** Call m reached the threshold and got to it. */
  ghost predicate Tries(calls: seq<Call>, m: nat, notice: Notice)
    requires m < |calls|
  {
    Reaches(calls, m, notice) && !IsCutOff(calls, m, notice.percent)
  }

  lemma {:induction false} MarkedIffReached(calls: seq<Call>, n: nat, notice: Notice)
    requires n <= |calls| && IsThreshold(notice.percent)
    ensures notice in Marked(calls, n) <==> exists m | 0 <= m < n :: Tries(calls, m, notice)
  {
    hide ReachedBy, Reaches, IsBehind, Tries;
    if n > 0 {
      MarkedIffReached(calls, n - 1, notice);
      ReachedByIsReaches(calls, n - 1, notice);
      TriesMeans(calls, n - 1, notice);
      assert notice in Marked(calls, n) <==> notice in Marked(calls, n - 1) || Tries(calls, n - 1, notice);
    }
  }

  /**
   Over every run, with any notices failing to be stored: a notice is sent by a call if and
   only if the call reaches its threshold, gets to it, can store it, and no earlier call got
   to the same device, period start and percentage, whatever the type of that call's period
   and whatever was reset in between.
   */
  lemma NoticeIsSentIffFirstReached(calls: seq<Call>, n: nat, notice: Notice)
    requires n < |calls| && IsThreshold(notice.percent)
    ensures notice in SentBy(calls, n) <==>
              && Tries(calls, n, notice) && calls[n].failing != Some(notice.percent)
              && forall m | 0 <= m < n :: !Tries(calls, m, notice)
  {
    hide ReachedBy, Reaches, Marked, IsBehind, Tries;
    ReachedByIsReaches(calls, n, notice);
    MarkedIffReached(calls, n, notice);
    TriesMeans(calls, n, notice);
  }

  lemma TriesMeans(calls: seq<Call>, n: nat, notice: Notice)
    requires n < |calls|
    ensures Tries(calls, n, notice) <==>
              Reaches(calls, n, notice) && !IsBehind(News(calls, n), calls[n].failing, notice.percent)
  {
  }

  /** While no notice fails to be stored, getting to a threshold is reaching it. */
  lemma ReachedIsTried(calls: seq<Call>, n: nat, notice: Notice)
    requires n < |calls| && calls[n].failing == None
    ensures Tries(calls, n, notice) <==> Reaches(calls, n, notice)
  {
    hide Reaches, News;
  }

  /** No notice is sent twice over any run. */
  lemma NoticeIsSentAtMostOnce(calls: seq<Call>, m: nat, n: nat, notice: Notice)
    requires m < n < |calls| && IsThreshold(notice.percent) && notice in SentBy(calls, m)
    ensures notice !in SentBy(calls, n)
  {
    hide SentBy, Tries;
    NoticeIsSentIffFirstReached(calls, m, notice);
    NoticeIsSentIffFirstReached(calls, n, notice);
  }

  /** A notice that failed to be stored is never sent by any call. */
  lemma FailedNoticeIsNeverSent(calls: seq<Call>, m: nat, n: nat, notice: Notice)
    requires m < |calls| && n < |calls| && IsThreshold(notice.percent)
    requires notice in News(calls, m) && !IsCutOff(calls, m, notice.percent) && calls[m].failing == Some(notice.percent)
    ensures notice !in SentBy(calls, n)
  {
    hide SentBy, Reaches, ReachedBy, Marked, IsBehind;
    ReachedByIsReaches(calls, m, notice);
    MarkedIffReached(calls, m, notice);
    NoticeIsSentIffFirstReached(calls, n, notice);
    assert Tries(calls, m, notice);
  }

  // ----- Two consequences -----

  lemma EventsOneMore(calls: seq<Call>, m: nat)
    requires m < |calls|
    ensures Events(calls[..m + 1]) == Events(calls[..m]) + [calls[m].event]
  {
  }

  lemma RecordedOneMore(past: seq<Event>, e: Event, k: Key)
    ensures Recorded(past + [e], k) == Posted(Recorded(past, k), e, Succeeds(Run(past), e), k)
  {
    hide Posted, Succeeds, Run;
    assert (past + [e])[..|past|] == past;
  }

  lemma {:induction false} RecordedIsNatural(events: seq<Event>, k: Key)
    ensures Recorded(events, k).down >= 0 && Recorded(events, k).up >= 0
  {
    hide Succeeds, IsOf, Run;
    if events != [] {
      RecordedIsNatural(events[..|events| - 1], k);
    }
  }

  /** A recording finds at least what it recorded itself. */
  lemma UsedAtLeast(calls: seq<Call>, m: nat)
    requires m < |calls| && IsRecording(calls[m])
    ensures UsedAt(calls, m) == Total(Recorded(Events(calls[..m]), KeyOf(calls[m]))) + Total(calls[m].event.used)
    ensures UsedAt(calls, m) >= Total(calls[m].event.used)
  {
    hide PeriodFor, Recorded, Succeeds, Run, Events;
    var k := KeyOf(calls[m]);
    EventsOneMore(calls, m);
    RecordedOneMore(Events(calls[..m]), calls[m].event, k);
    RecordedIsNatural(Events(calls[..m]), k);
  }

  /** A recording of eighty under a quota of a hundred reaches its first threshold. */
  lemma EightyOfHundred(calls: seq<Call>, m: nat)
    requires m < |calls| && IsRecording(calls[m]) && calls[m].quota == 100 && calls[m].event.used == Usage(80, 0)
    ensures Reaches(calls, m, Notice(KeyOf(calls[m]).device, KeyOf(calls[m]).start, 80))
    ensures UsedAt(calls, m) == Total(Recorded(Events(calls[..m]), KeyOf(calls[m]))) + 80
  {
    hide KeyOf, UsedAt, Recorded, Events;
    UsedAtLeast(calls, m);
  }

  /** On Monday, the fifth of January 1970, a daily and a weekly period start together. */
  function MondayCalls(): seq<Call> {
    [Call(Record(1, "daily", 345_600_000, Usage(80, 0)), 100, None),
     Call(Record(1, "weekly", 345_600_000, Usage(80, 0)), 100, None)]
  }

  lemma MondayPeriods()
    ensures PeriodFor("daily", 345_600_000).start == PeriodFor("weekly", 345_600_000).start == 345_600_000
  {
    assert Lower("daily") == "daily" && Lower("weekly") == "weekly";
    hide Lower;
    assert KindOf("daily") == Daily && KindOf("weekly") == Weekly;
  }

  /** The weekly period reaches its threshold too, but its notice went out with the daily one's. */
  lemma DailyAndWeeklyShareANotice()
    ensures var notice := Notice(1, 345_600_000, 80);
            && Reaches(MondayCalls(), 0, notice) && Reaches(MondayCalls(), 1, notice)
            && notice in SentBy(MondayCalls(), 0) && notice !in SentBy(MondayCalls(), 1)
  {
    hide PeriodFor, SentBy, UsedAt, Reaches, Recorded, Events;
    var calls, notice := MondayCalls(), Notice(1, 345_600_000, 80);
    MondayPeriods();
    EightyOfHundred(calls, 0);
    EightyOfHundred(calls, 1);
    NoticeIsSentIffFirstReached(calls, 0, notice);
    NoticeIsSentIffFirstReached(calls, 1, notice);
  }

  function ResetCalls(): seq<Call> {
    [Call(Record(1, "daily", 0, Usage(80, 0)), 100, None), Call(Reset(1, "daily", 0, 0), 100, None),
     Call(Record(1, "daily", 0, Usage(80, 0)), 100, None)]
  }

  lemma ResetCallsFacts()
    ensures KeyOf(ResetCalls()[0]) == KeyOf(ResetCalls()[2]) == Key(1, "daily", 0)
    ensures Recorded(Events(ResetCalls()[..2]), Key(1, "daily", 0)) == UNUSED
  {
    hide PeriodFor, Recorded, Succeeds, Run, Events, IsCanonical;
    DailyPeriods();
    var past := Events(ResetCalls()[..1]);
    EventsOneMore(ResetCalls(), 1);
    RunIsCanonical(past);
    ResetFailsIffItStraddles(Run(past), 1, "daily", 0, 0);
    RecordedOneMore(past, ResetCalls()[1].event, Key(1, "daily", 0));
  }

  lemma ResetCallsAre()
    ensures var calls := ResetCalls();
            && |calls| == 3 && IsRecording(calls[0]) && IsRecording(calls[2]) && calls[0].quota == calls[2].quota == 100
            && calls[0].event.used == calls[2].event.used == Usage(80, 0)
  {
  }

  lemma ResetCallsReach()
    ensures UsedAt(ResetCalls(), 2) == 80
    ensures Reaches(ResetCalls(), 0, Notice(1, 0, 80)) && Reaches(ResetCalls(), 2, Notice(1, 0, 80))
  {
    hide *;
    ResetCallsAre();
    EightyOfHundred(ResetCalls(), 0);
    EightyOfHundred(ResetCalls(), 2);
    ResetCallsFacts();
    NothingUsed();
  }

  lemma NothingUsed()
    ensures Total(UNUSED) == 0
  {
  }

  /** After a successful reset the usage starts again from nothing, but the notice does not come again. */
  lemma ResetDoesNotBringTheNoticeBack()
    ensures var notice := Notice(1, 0, 80);
            && notice in SentBy(ResetCalls(), 0)
            && UsedAt(ResetCalls(), 2) == 80 && Reaches(ResetCalls(), 2, notice) && notice !in SentBy(ResetCalls(), 2)
  {
    hide SentBy, UsedAt, Reaches;
    ResetCallsReach();
    NoticeIsSentIffFirstReached(ResetCalls(), 0, Notice(1, 0, 80));
    NoticeIsSentIffFirstReached(ResetCalls(), 2, Notice(1, 0, 80));
  }
}
