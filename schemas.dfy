/** The shape of one bus-route record, as `BusResponse` describes it. */
module Schemas {

  /** One route record. The search writes only `formattedTimes`, and it does
      so in place, so the record is an object; the three fields read from the
      data file are never written by the search and are constants here. */
  class BusRecord {
    const route: string
    const departureTimes: seq<string>
    const busType: string
    var formattedTimes: seq<string>

    /** A record as loaded: `formatted_times` defaults to the empty list. */
    constructor (route: string, departureTimes: seq<string>, busType: string)
      ensures this.route == route && this.departureTimes == departureTimes
      ensures this.busType == busType
      ensures formattedTimes == []
    {
      this.route := route;
      this.departureTimes := departureTimes;
      this.busType := busType;
      formattedTimes := [];
    }
  }
}
