/** Channel numbers of the 2.4 GHz band and their centre frequencies. */
module Channel {

  /** The value returned for every channel outside 1..13. */
  const UNSUPPORTED: int := -1

  /**
   `ConvertChannelToFrequency`: channels 1 to 13 map to 2412 MHz upwards in
   steps of 5 MHz; anything else gives -1.
   */
  function ConvertChannelToFrequency(channel: int): (frequency: int)
    ensures frequency != UNSUPPORTED <==> 1 <= channel <= 13
    ensures frequency != UNSUPPORTED ==> 2412 <= frequency <= 2472
    ensures frequency != UNSUPPORTED ==> frequency % 5 == 2 && (frequency - 2407) / 5 == channel
  {
    if 1 <= channel <= 13 then 2412 + (channel - 1) * 5 else UNSUPPORTED
  }

  /** Distinct supported channels never share a frequency. */
  lemma FrequencyInjective(a: int, b: int)
    requires ConvertChannelToFrequency(a) == ConvertChannelToFrequency(b) != UNSUPPORTED
    ensures a == b
  {
  }
}
