/** The records of types.ts, plus the partially-filled shape the service
    replies are parsed into. Minutes and epoch milliseconds are integers;
    fields the TypeScript marks optional are `Option`s. */
module Types {
  import opened Wrappers

  datatype User = User(username: string)

  datatype ParkingLot = ParkingLot(
    name: string,
    distanceFromDest: string,
    walkTimeMins: int,
    entranceType: string)

  /** One piece of evidence cited by the reasoning service. */
  datatype GroundingSource = GroundingSource(title: string, uri: string)

  datatype Driving = Driving(
    driveTimeMins: int,
    trafficTrend: Option<string>,
    trafficStatus: string,
    parkingOptions: Option<seq<ParkingLot>>,
    totalTimeMins: int)

  datatype Walking = Walking(
    walkTimeMins: int,
    temperature: Option<real>,
    weatherAlert: Option<string>,
    weatherCondition: Option<string>,
    isRecommended: Option<bool>,
    recommendationReason: Option<string>)

  /** The complete, displayable result of one search. */
  datatype TripAnalysis = TripAnalysis(
    destination: string,
    timestamp: int,
    isOpenAtArrival: bool,
    closingTime: Option<string>,
    lastClosingTime: Option<string>,
    nextOpeningTime: Option<string>,
    driving: Driving,
    walking: Walking,
    groundingSources: seq<GroundingSource>)

  /** A copy of an analysis sent from one user to another. */
  datatype SharedSnapshot = SharedSnapshot(
    id: string,
    from: string,
    to: string,
    data: TripAnalysis,
    sentAt: int)

  // ------------------------------------------------ parsed service replies

  /** The `driving` object of a parsed reply: any field may be missing. */
  datatype PartialDriving = PartialDriving(
    driveTimeMins: Option<int>,
    trafficTrend: Option<string>,
    trafficStatus: Option<string>,
    parkingOptions: Option<seq<ParkingLot>>,
    totalTimeMins: Option<int>)

  /** The `walking` object of a parsed reply: any field may be missing. */
  datatype PartialWalking = PartialWalking(
    walkTimeMins: Option<int>,
    temperature: Option<real>,
    weatherAlert: Option<string>,
    weatherCondition: Option<string>,
    isRecommended: Option<bool>,
    recommendationReason: Option<string>)

  /** `Partial<TripAnalysis>`: what the core and deep fetches return. */
  datatype PartialAnalysis = PartialAnalysis(
    destination: Option<string>,
    timestamp: Option<int>,
    isOpenAtArrival: Option<bool>,
    closingTime: Option<string>,
    lastClosingTime: Option<string>,
    nextOpeningTime: Option<string>,
    driving: Option<PartialDriving>,
    walking: Option<PartialWalking>,
    groundingSources: Option<seq<GroundingSource>>)

  /** The reply with every field absent, `{}`. */
  const EmptyPartial := PartialAnalysis(None, None, None, None, None, None, None, None, None)
}
