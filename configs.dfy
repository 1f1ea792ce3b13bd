/** ValidateConfig of src/config.cc over the configuration defaults of src/config.h. */
module Configs {
  /** Config::kMaximumWindowTitleLength. */
  const MaxTitleLength := 50

  /** The part of Config the rule engine reads: the window title, as the bytes of its UTF-8
      encoding that std::string holds and counts, and the board size. */
  datatype Config = Config(windowTitle: seq<bv8>, mapWidth: int, mapDepth: int, mapHeight: int)

  /** The defaults of src/config.h; the title is "tetris3d". */
  const DefaultConfig := Config([0x74, 0x65, 0x74, 0x72, 0x69, 0x73, 0x33, 0x64], 7, 7, 18)

  /** The two errors ValidateConfig throws; the message text is not modelled. */
  datatype ConfigError = EmptyTitle | TitleTooLong(length: nat)

  datatype Outcome = Valid | Invalid(error: ConfigError)

  /** ValidateConfig: an empty title is rejected first, then one longer than the maximum;
      std::string::length() counts bytes, so a length is a number of bytes. */
  function ValidateConfig(config: Config): (r: Outcome)
    ensures r == Valid <==> 1 <= |config.windowTitle| <= MaxTitleLength
    ensures r == Invalid(TitleTooLong(|config.windowTitle|)) <==>
      |config.windowTitle| > MaxTitleLength
    ensures r == Invalid(EmptyTitle) <==> config.windowTitle == []
    ensures r.Invalid? && r.error.TitleTooLong? ==> r.error.length == |config.windowTitle|
  {
    if config.windowTitle == [] then Invalid(EmptyTitle)
    else if |config.windowTitle| > MaxTitleLength then Invalid(TitleTooLong(|config.windowTitle|))
    else Valid
  }

  /** The default configuration passes, and its board has square layers at least one cell
      wide, as the board and game models require. */
  lemma DefaultConfigIsValid()
    ensures ValidateConfig(DefaultConfig) == Valid
    ensures DefaultConfig.mapWidth == DefaultConfig.mapDepth >= 1 && DefaultConfig.mapHeight >= 1
  {
  }
}
