/** The step of a search in App.tsx that combines the
    core and deep replies into one complete `TripAnalysis`. */
module TripMerge {
  import opened Wrappers
  import opened Types
  import GeminiService

  /** The core fields the merge dereferences with `!` and copies into
      fields the `TripAnalysis` type declares as required. */
  predicate Mergeable(core: PartialAnalysis) {
    && core.driving.Some? && core.driving.value.driveTimeMins.Some?
    && core.driving.value.trafficStatus.Some?
    && core.walking.Some? && core.walking.value.walkTimeMins.Some?
  }

  /** The parking lots of the deep reply, none when it has no driving
      section or no list (an empty list is kept as it is). */
  function ParkingOptionsOf(deep: PartialAnalysis): (r: seq<ParkingLot>)
    ensures deep.driving.Some? && deep.driving.value.parkingOptions.Some? ==>
              r == deep.driving.value.parkingOptions.value
    ensures deep.driving.None? || deep.driving.value.parkingOptions.None? ==> r == []
  {
    if deep.driving.Some? && deep.driving.value.parkingOptions.Some?
    then deep.driving.value.parkingOptions.value
    else []
  }

  /** An analysis fit to show: both times non-zero and a traffic status the
      display understands. */
  predicate ValidAnalysis(a: TripAnalysis) {
    && a.driving.driveTimeMins != 0
    && a.walking.walkTimeMins != 0
    && GeminiService.KnownStatus(a.driving.trafficStatus)
  }

  /** The merged analysis: core fields are copied, the total adds the walk
      from the first parking lot to the drive, and every field the deep
      reply may omit gets its default. */
  function Merge(finalDest: string, core: PartialAnalysis, deep: PartialAnalysis, now: int): (a: TripAnalysis)
    requires Mergeable(core)
    // copied from the core reply
    ensures a.driving.driveTimeMins == core.driving.value.driveTimeMins.value
    ensures a.driving.trafficStatus == core.driving.value.trafficStatus.value
    ensures a.walking.walkTimeMins == core.walking.value.walkTimeMins.value
    ensures a.closingTime == core.closingTime && a.nextOpeningTime == core.nextOpeningTime
    ensures a.lastClosingTime.None?
    ensures a.timestamp == now
    // destination and opening status
    ensures TruthyString(core.destination) ==> a.destination == core.destination.value
    ensures !TruthyString(core.destination) ==> a.destination == finalDest
    ensures a.isOpenAtArrival == core.isOpenAtArrival.GetOr(true)
    // derived total
    ensures a.driving.parkingOptions == Some(ParkingOptionsOf(deep))
    ensures |ParkingOptionsOf(deep)| > 0 ==>
              a.driving.totalTimeMins == a.driving.driveTimeMins + ParkingOptionsOf(deep)[0].walkTimeMins
    ensures |ParkingOptionsOf(deep)| == 0 ==> a.driving.totalTimeMins == a.driving.driveTimeMins
    // defaults for what the deep reply omits
    ensures deep.driving.Some? && TruthyString(deep.driving.value.trafficTrend) ==>
              a.driving.trafficTrend == deep.driving.value.trafficTrend
    ensures !(deep.driving.Some? && TruthyString(deep.driving.value.trafficTrend)) ==>
              a.driving.trafficTrend == Some("stable")
    ensures deep.walking.Some? ==>
              && a.walking.temperature == deep.walking.value.temperature
              && a.walking.weatherCondition == deep.walking.value.weatherCondition
              && a.walking.weatherAlert == deep.walking.value.weatherAlert
              && a.walking.recommendationReason == deep.walking.value.recommendationReason
              && a.walking.isRecommended == Some(deep.walking.value.isRecommended.GetOr(true))
    ensures deep.walking.None? ==>
              && a.walking.temperature.None? && a.walking.weatherCondition.None?
              && a.walking.weatherAlert.None? && a.walking.recommendationReason.None?
              && a.walking.isRecommended == Some(true)
    ensures a.groundingSources == deep.groundingSources.GetOr([])
  {
    var parking := ParkingOptionsOf(deep);
    var walkFromParking := if |parking| > 0 then parking[0].walkTimeMins else 0;
    var drive := core.driving.value;
    var walk := core.walking.value;
    var trend := if deep.driving.Some? then deep.driving.value.trafficTrend else None;
    TripAnalysis(
      destination := StringOr(core.destination, finalDest),
      timestamp := now,
      isOpenAtArrival := core.isOpenAtArrival.GetOr(true),
      closingTime := core.closingTime,
      lastClosingTime := None,
      nextOpeningTime := core.nextOpeningTime,
      driving := Driving(
        driveTimeMins := drive.driveTimeMins.value,
        trafficTrend := Some(StringOr(trend, "stable")),
        trafficStatus := drive.trafficStatus.value,
        parkingOptions := Some(parking),
        totalTimeMins := NumberOr(drive.driveTimeMins, 0) + walkFromParking),
      walking := Walking(
        walkTimeMins := walk.walkTimeMins.value,
        temperature := if deep.walking.Some? then deep.walking.value.temperature else None,
        weatherAlert := if deep.walking.Some? then deep.walking.value.weatherAlert else None,
        weatherCondition := if deep.walking.Some? then deep.walking.value.weatherCondition else None,
        isRecommended := Some(if deep.walking.Some? then deep.walking.value.isRecommended.GetOr(true) else true),
        recommendationReason := if deep.walking.Some? then deep.walking.value.recommendationReason else None),
      groundingSources := deep.groundingSources.GetOr([]))
  }

  /** Merging is deterministic apart from the timestamp. */
  lemma MergeModuloTimestamp(finalDest: string, core: PartialAnalysis, deep: PartialAnalysis, t1: int, t2: int)
    requires Mergeable(core)
    ensures Merge(finalDest, core, deep, t1) == Merge(finalDest, core, deep, t2).(timestamp := t1)
  {
  }

  /** A failed deep fetch leaves the defaults: stable traffic, walking
      recommended, no parking, no sources, and a total equal to the drive. */
  lemma MergeWithDeepFallback(finalDest: string, core: PartialAnalysis, now: int)
    requires Mergeable(core)
    ensures var a := Merge(finalDest, core, GeminiService.DeepFallback, now);
            && a.driving.trafficTrend == Some("stable")
            && a.driving.parkingOptions == Some([])
            && a.driving.totalTimeMins == a.driving.driveTimeMins
            && a.walking.isRecommended == Some(true)
            && a.groundingSources == []
  {
  }

  /** A core reply that passed validation merges into a valid analysis. */
  lemma ValidCoreMergesValid(finalDest: string, core: PartialAnalysis, deep: PartialAnalysis, now: int)
    requires GeminiService.ValidCore(core)
    ensures Mergeable(core)
    ensures ValidAnalysis(Merge(finalDest, core, deep, now))
  {
  }

  /** The worked example: a 12-minute drive and parking lots 4 and 9 minutes
      from the door make a 16-minute total; no lots make 12. */
  lemma TotalTimeExample(core: PartialAnalysis, lot1: ParkingLot, lot2: ParkingLot)
    requires Mergeable(core) && core.driving.value.driveTimeMins == Some(12)
    requires lot1.walkTimeMins == 4 && lot2.walkTimeMins == 9
    ensures var deep := EmptyPartial.(driving := Some(PartialDriving(None, None, None, Some([lot1, lot2]), None)));
            Merge("x", core, deep, 0).driving.totalTimeMins == 16
    ensures var deep := EmptyPartial.(driving := Some(PartialDriving(None, None, None, Some([]), None)));
            Merge("x", core, deep, 0).driving.totalTimeMins == 12
  {
  }
}
