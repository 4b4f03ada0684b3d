/** The benchmark's parameters and the four choices `main` and `init` make from them
    with plain conditional expressions: the role, the delivery mode, whether
    duplicates are allowed, and the session's acknowledgement mode. */
module Config {

  datatype Role = ListenerRole | SenderRole

  /** javax.jms.DeliveryMode.PERSISTENT and NON_PERSISTENT. */
  datatype DeliveryMode = Persistent | NonPersistent

  /** The three javax.jms.Session acknowledgement modes the harness can ask for. */
  datatype AckMode = SessionTransacted | AutoAcknowledge | DupsOkAcknowledge

  /** The values `main` hands to both roles. Counts are natural numbers: negative
      command-line values are outside the model. */
  datatype PerfParams = PerfParams(
    noOfMessagesToSend: nat,
    noOfWarmupMessages: nat,
    messageSize: nat,
    deliveryMode: DeliveryMode,
    sessionTransacted: bool,
    transactionBatchSize: nat,
    dupsOk: bool,
    drainQueue: bool,
    queueLookup: string,
    connectionFactoryLookup: string)

  /** `Character.toLowerCase(Character.toUpperCase(c))`, exact for every character
      whose image is an ASCII letter; every other character is left as it is. */
  function FoldCase(c: char): char
  {
    if 'A' <= c <= 'Z' then (c as int + 32) as char
    else if c == '\U{017F}' then 's'  // LATIN SMALL LETTER LONG S, upper case 'S'
    else if c == '\U{0131}' then 'i'  // LATIN SMALL LETTER DOTLESS I, upper case 'I'
    else if c == '\U{0130}' then 'i'  // LATIN CAPITAL LETTER I WITH DOT ABOVE, lower case 'i'
    else if c == '\U{212A}' then 'k'  // KELVIN SIGN, lower case 'k'
    else c
  }

  /** True when every character of `literal` is an ASCII lower-case letter, a digit, '-' or '_'. */
  predicate PlainLiteral(literal: string)
  {
    forall i :: 0 <= i < |literal| ==>
      'a' <= literal[i] <= 'z' || '0' <= literal[i] <= '9' || literal[i] == '-' || literal[i] == '_'
  }

  /** `arg.equalsIgnoreCase(literal)` for a literal written in lower case, as Java's
      String.equalsIgnoreCase compares it: same length, and at each position the same
      character or characters with the same case fold. */
  predicate EqualsIgnoreCase(arg: string, literal: string)
    requires PlainLiteral(literal)
  {
    |arg| == |literal| &&
    forall i :: 0 <= i < |arg| ==> arg[i] == literal[i] || FoldCase(arg[i]) == literal[i]
  }

  /** Line 92: "-l" in either case selects the listener; anything else the sender. */
  function ChooseRole(arg: string): (r: Role)
    ensures r == ListenerRole <==> arg == "-l" || arg == "-L"
  {
    if EqualsIgnoreCase(arg, "-l") then ListenerRole else SenderRole
  }

  /** Every character that Java's case-insensitive comparison accepts in place of the
      character `c` of a plain literal. */
  function Spellings(c: char): set<char>
  {
    if 'a' <= c <= 'z' then
      {c, (c as int - 32) as char}
      + (if c == 's' then {'\U{017F}'} else {})
      + (if c == 'i' then {'\U{0131}', '\U{0130}'} else {})
      + (if c == 'k' then {'\U{212A}'} else {})
    else {c}
  }

  /** Line 72: "persistent" in any case selects persistent delivery. */
  function ChooseDeliveryMode(arg: string): (d: DeliveryMode)
    ensures d == Persistent <==>
      |arg| == 10 && forall i :: 0 <= i < 10 ==> arg[i] in Spellings("persistent"[i])
    ensures arg == "persistent" || arg == "PERSISTENT" || arg == "Persistent" ==> d == Persistent
    ensures arg == "non_persistent" ==> d == NonPersistent
  {
    if EqualsIgnoreCase(arg, "persistent") then Persistent else NonPersistent
  }

  /** Line 75: "DUPS_OK" in any case asks for duplicates-allowed acknowledgement. */
  function ChooseDupsOk(arg: string): (dupsOk: bool)
    ensures dupsOk <==> |arg| == 7 && forall i :: 0 <= i < 7 ==> arg[i] in Spellings("dups_ok"[i])
    ensures arg == "DUPS_OK" || arg == "dups_ok" ==> dupsOk
    ensures arg == "AUTO" ==> !dupsOk
  {
    EqualsIgnoreCase(arg, "dups_ok")
  }

  /** Line 109: a transacted session is always SESSION_TRANSACTED; otherwise the
      duplicates-allowed flag picks between DUPS_OK and AUTO acknowledgement. */
  function ChooseAckMode(transacted: bool, dupsOk: bool): (m: AckMode)
    ensures m == SessionTransacted <==> transacted
    ensures m == DupsOkAcknowledge <==> !transacted && dupsOk
    ensures m == AutoAcknowledge <==> !transacted && !dupsOk
  {
    if transacted then SessionTransacted
    else if dupsOk then DupsOkAcknowledge
    else AutoAcknowledge
  }
}
