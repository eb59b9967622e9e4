/**
  Records shared by the main-window logic: calendar dates, channels,
  programmes and the lookups the resource cache hands back.
 */
module Guide {

  datatype Option<+T> = None | Some(value: T)

  /** A QDate: either the null date or a day number. */
  datatype Date = NullDate | Day(julian: int) {
    predicate IsNull() { NullDate? }
  }

  datatype Channel = Channel(id: int)

  /** A programme of the TV guide; bit 3 of `flags` marks "no poster available". */
  datatype Programme = Programme(id: int, flags: bv32)

  /** The out-parameters of `Cache::loadChannels(bool &ok)`. */
  datatype ChannelLookup = ChannelLookup(channels: seq<Channel>, ok: bool)

  /**
    The out-parameters of `Cache::loadProgrammes(channelId, date, bool &ok, int &age)`;
    `age` (minutes since the server generated the list) is meaningful only when `ok`.
   */
  datatype ProgrammeLookup = ProgrammeLookup(programmes: seq<Programme>, ok: bool, age: int)

  /** A request handed to the network client. */
  datatype Request =
    | ChannelRequest
    | ProgrammeRequest(channelId: int, date: Date)
    | SearchRequest(phrase: string)
    | PosterRequest(programmeId: int)
}
