// RebootTest.c: the command line of start, built from its parts.
module RebootCommands {
  import opened Bytes
  import opened RebootRecord
  import opened RebootTest
  import Parsers

  // start <count> [warm|cold] [delay]

  datatype Choice = Default | Warm | Cold

  datatype Order = Order(count: nat, choice: Choice, delay: Option<nat>)

  predicate Allowed(o: Order) {
    && 1 <= o.count <= 1_000_000
    && (o.delay.Some? ==> o.choice != Default && 1 <= o.delay.value <= 60)
  }

  function Words(program: string, o: Order): seq<string> {
    [program, "start", Parsers.Decimal(o.count)]
    + (match o.choice case Default => [] case Warm => ["warm"] case Cold => ["cold"])
    + if o.delay.Some? then [Parsers.Decimal(o.delay.value)] else []
  }

  // The order a command line was built from is the record that is saved: warm is reset type
  // 1 and cold is 0, as in section 8.5.1 of the UEFI specification; without a choice it is
  // warm, without a delay three seconds.
  lemma OrderReadBack(program: string, o: Order)
    requires Allowed(o)
    ensures CommandOf(Words(program, o)) == Some(Start(Words(program, o)))
    ensures
      Asked(Words(program, o)) ==
      Some(Record(SIGNATURE, 1, 1, if o.choice == Cold then 0 else 1, o.count, 0,
                  if o.delay.Some? then o.delay.value else 3, 0))
  {
    var argv := Words(program, o);
    Parsers.DecimalRoundTrip(o.count);
    if o.delay.Some? {
      Parsers.DecimalRoundTrip(o.delay.value);
      assert argv[4] == Parsers.Decimal(o.delay.value);
    }
    NamesAreLower();
    assert LowerCase("warm") == "warm" && LowerCase("cold") == "cold" && "warm"[0] != "cold"[0];
    assert argv[1] == "start" && argv[2] == Parsers.Decimal(o.count);
  }
}
