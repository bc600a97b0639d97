/**
 * The traffic report of one interface, as the server holds it after decoding
 * the XML that `vnstat --xml` prints. Every leaf is the text of an XML
 * element; byte counts stay numeric strings until someone parses them.
 */
module Records {

  datatype Date = Date(year: string, month: string, day: string)

  datatype Time = Time(hour: string, minute: string)

  datatype DateTime = DateTime(dateVal: Date, timeVal: Time)

  /** One dated entry of a period list: when, and the sent (tx) and received (rx) counts. */
  datatype DateTimeData = DateTimeData(dateVal: Date, timeVal: Time, transfer: string, receive: string)

  datatype TotalType = TotalType(transfer: string, receive: string)

  datatype DaysType = DaysType(day: seq<DateTimeData>)

  /** The per-month list; the tool lists the current month first. */
  datatype MonthsType = MonthsType(month: seq<DateTimeData>)

  datatype TopsType = TopsType(top: seq<DateTimeData>)

  datatype HoursType = HoursType(hour: seq<DateTimeData>)

  datatype TrafficType = TrafficType(total: TotalType, days: DaysType, months: MonthsType, tops: TopsType, hours: HoursType)

  datatype Iface = Iface(id: string, nick: string, created: DateTime, updated: DateTime, traffic: TrafficType)

  /** The document root: the one interface the report is about. */
  datatype Vnstat = Vnstat(ifaces: Iface)

  /**
   * Go's zero value of `Vnstat`: every string empty and every list empty.
   * This is what the server is left with when the tool could not be run (its
   * output is then empty) or when its output has no element that decodes.
   * Output that breaks off part-way can leave the elements decoded before
   * the break in place.
   */
  function ZeroVnstat(): (r: Vnstat)
    ensures r.ifaces.id == "" && r.ifaces.nick == ""
    ensures r.ifaces.created == DateTime(Date("", "", ""), Time("", "")) && r.ifaces.updated == r.ifaces.created
    ensures r.ifaces.traffic.total == TotalType("", "")
    ensures r.ifaces.traffic.days.day == [] && r.ifaces.traffic.months.month == []
    ensures r.ifaces.traffic.tops.top == [] && r.ifaces.traffic.hours.hour == []
  {
    var date := Date("", "", "");
    var time := Time("", "");
    Vnstat(Iface("", "", DateTime(date, time), DateTime(date, time),
      TrafficType(TotalType("", ""), DaysType([]), MonthsType([]), TopsType([]), HoursType([]))))
  }
}
