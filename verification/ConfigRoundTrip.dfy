/** The round trip through the reader itself: a printed table is what the program has read afterwards. */
module ConfigRoundTrip {
  import opened Wrappers
  import opened ConfigParser
  import opened ConfigPrinter
  import opened ConfigReader

  /**
   Printing any table and running the reader on the text fills the global table with the same regions
   and sync types, and sets both counts; the records behind the regions are blank.
  */
  method PrintAndRead(cs: seq<Conf>, types: seq<string>, junk: string) returns (config: Config)
    requires forall i :: 0 <= i < |cs| ==> WritableConf(cs[i])
    requires forall i :: 0 <= i < |types| ==> Writable(types[i])
    requires |cs| <= MAX_CONF && |types| <= MAX_SYNCFILES
    ensures fresh(config) && config.Valid()
    ensures config.confent == |cs| && config.conf[..|cs|] == cs
    ensures forall i :: |cs| <= i < config.conf.Length ==> config.conf[i] == BLANK
    ensures config.syncent == |types| && config.synctype[..|types|] == types
  {
    TableRoundTrip(cs, types, junk);
    var text := Print(TableSections(cs, types));
    config := new Config();
    var fp := new Stream(text);
    assert config.Now(0, 0, junk) == Init(junk);
    var failed := config.ReadConf(fp, junk);
    var blank := seq(MAX_CONF + 1 - |cs|, i => BLANK);
    assert failed.None? && config.conf[..] == cs + blank;
    forall i | |cs| <= i < config.conf.Length
      ensures config.conf[i] == BLANK
    {
      assert config.conf[i] == config.conf[..][i] == blank[i - |cs|];
    }
    assert config.conf[..|cs|] == config.conf[..][..|cs|];
  }

  /** Likewise any configuration whose sections fit: what is read is what the sections mean. */
  method PrintAndReadSections(ns: seq<Section>, junk: string) returns (config: Config, failed: Option<Outcome>)
    requires WritableSections(ns) && forall i :: 0 <= i < |ns| ==> ValidSection(ns[i])
    ensures fresh(config) && config.Valid()
    ensures failed == if |Regions(ns)| > MAX_CONF || |SyncTypes(ns)| > MAX_SYNCFILES then Some(TooMany) else None
    ensures failed.None? ==> config.confent == |Regions(ns)| && config.conf[..config.confent] == Regions(ns)
    ensures failed.None? ==> config.synctype[..config.syncent] == SyncTypes(ns)
  {
    PrintRoundTrip(ns, junk);
    var text := Print(ns);
    config := new Config();
    var fp := new Stream(text);
    assert config.Now(0, 0, junk) == Init(junk);
    failed := config.ReadConf(fp, junk);
    if failed.None? {
      var cs := Regions(ns);
      assert config.conf[..|cs|] == config.conf[..][..|cs|];
    }
  }
}
