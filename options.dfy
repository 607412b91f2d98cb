/** Package-level configuration shared by the tokeniser, the compiler and the helpers (glob.go). */
module GlobOptions {
  import opened Wrappers

  /** Options modify the behaviour of glob parsing. */
  datatype Options = Options(separator: char, matchAtStart: bool, matchAtEnd: bool)

  /** A forward slash as separator and a full match required at both ends. */
  const DefaultOptions: Options := Options('/', true, true)

  /** The wildcard characters; neither may serve as a separator. */
  const Expanders: seq<char> := ['?', '*']

  /** The character that forces the next one to be read literally. */
  const Escaper: char := '\\'

  /** A nil *Options stands for DefaultOptions. */
  function OrDefault(options: Option<Options>): Options {
    if options.None? then DefaultOptions else options.value
  }
}
