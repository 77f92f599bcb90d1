/** Cold-store items (cold.py) as the passes read and rewrite them. */
module Knowledge {
  import opened CiStatus
  import opened Wrappers
  import Text

  datatype Tier = Cold | Warm | Hot

  /** A date field: absent or blank, present but not an ISO date, or a day number. */
  datatype DateField = Blank | Unparseable | Day(day: int)

  datatype Item = Item(
    topic: string, paths: seq<string>, created: DateField, campaign: string,
    actedOn: Option<string>, testsGreen: TestsGreen,
    tier: Tier, pinned: bool, lastInjected: DateField, finding: string)

  /** The knowledge directory: one item per slug. */
  type Store = map<string, Item>

  predicate LowerHex(s: string) {
    forall c | c in s :: '0' <= c <= '9' || 'a' <= c <= 'f'
  }

  /** `_real_sha`: the stripped value when it has the shape of a commit sha. */
  function RealSha(value: Option<string>): Option<string> {
    if value.None? then None
    else
      var sha := Text.Strip(value.value);
      if 7 <= |sha| <= 40 && LowerHex(sha) then Some(sha) else None
  }

  /** Only a literal True or False survives; anything else becomes "unknown". */
  function Literal(green: TestsGreen): TestsGreen {
    if green == True || green == False then green else Unknown
  }
}
