/**
 * The connection configuration of the `Imap` class: server path, port, service,
 * connection flags, options and mailbox, the transitions that change them, and the
 * `{host:port/service/flag…}mailbox` string handed to `imap_open`. The calls into
 * PHP's IMAP extension (search, message count, UID lookup) are inputs here.
 */
module ImapClient {
  import opened Wrappers
  import opened PhpString
  import opened PhpArray

  // ---------------------------------------------------------------------------------
  // Values
  // ---------------------------------------------------------------------------------

  /** The PHP scalars `set_options` may be handed (floating-point numbers are not modelled). */
  datatype Scalar = PNull | PBool(b: bool) | PInt(i: int) | PStr(s: string)

  /** PHP's `is_numeric`. */
  predicate IsNumeric(v: Scalar) {
    match v
    case PInt(_) => true
    case PStr(s) => IsNumericString(s)
    case _ => false
  }

  /** The `$value` argument of `set_flag`: NULL, a boolean or a string. */
  datatype FlagValue = NoValue | BoolValue(b: bool) | StrValue(s: string)

  /** `$value == FALSE` under PHP's loose comparison: FALSE, "" and "0". */
  predicate IsLooselyFalse(v: FlagValue) {
    v == BoolValue(false) || v == StrValue("") || v == StrValue("0")
  }

  /** How a call ends: normally, or by throwing `Imap_Exception`. */
  datatype Outcome = Success | ImapException

  /** An `Imap_Message` for the message with this UID (the message class itself is not part of this model). */
  datatype Message = Message(uid: int)

  // ---------------------------------------------------------------------------------
  // The flag tables and set_flag
  // ---------------------------------------------------------------------------------

  /** The flags that need SSL support compiled into the IMAP extension. */
  const SslFlags: seq<string> := ["ssl", "validate-cert", "novalidate-cert", "tls", "notls"]

  /** The exclusion table in its declared order, as (key, value) pairs. */
  const ExclusiveFlags: seq<(string, string)> := [("validate-cert", "novalidate-cert"), ("tls", "notls")]

  /** `isset($table[$flag])`. */
  predicate IsTableKey(table: seq<(string, string)>, flag: string) {
    exists i :: 0 <= i < |table| && table[i].0 == flag
  }

  /**
   * `array_search($flag, $table)`: the key of the first entry whose value is `flag`.
   * PHP compares loosely here ("1" matches "01"); exact equality agrees with that because
   * no value of `ExclusiveFlags` is a numeric string.
   */
  function SearchValue(table: seq<(string, string)>, flag: string): (r: Option<string>)
    ensures r.None? <==> forall i :: 0 <= i < |table| ==> table[i].1 != flag
    ensures r.Some? ==> exists i :: 0 <= i < |table| && table[i] == (r.value, flag) &&
                                   (forall j :: 0 <= j < i ==> table[j].1 != flag)
  {
    if table == [] then None
    else if table[0].1 == flag then Some(table[0].0)
    else
      var r := SearchValue(table[1..], flag);
      assert forall i :: 1 <= i < |table| ==> table[i] == table[1..][i - 1];
      r
  }

  /**
   * The key `set_flag` unsets before storing `flag`: the flag itself when it is a key
   * of the table, else the key whose value it is (when that key is truthy), else none.
   */
  function KillTarget(flag: string): Option<string> {
    if IsTableKey(ExclusiveFlags, flag) then Some(flag)
    else
      match SearchValue(ExclusiveFlags, flag)
      case Some(k) => if k != "" && k != "0" then Some(k) else None
      case None => None
  }

  /** What `set_flag($flag, $value)` leaves in `$this->flags`, given `Imap::$ssl_enable`. */
  function SetFlagResult(flags: Array<string>, flag: string, value: FlagValue, sslEnable: bool): Array<string> {
    if !sslEnable && flag in SslFlags then flags
    else
      var kill := KillTarget(flag);
      var killed := if kill.Some? && HasKey(flags, KeyOf(kill.value)) then Unset(flags, KeyOf(kill.value)) else flags;
      if value == NoValue || value == BoolValue(true) then Append(killed, flag)
      else if IsLooselyFalse(value) then Unset(killed, KeyOf(flag))
      else Append(killed, flag + "=" + value.s)
  }

  /** The flags array only ever grows by `[]` appends: integer keys, well formed. */
  ghost predicate FlagsInvariant(flags: Array<string>) {
    WellFormed(flags) && IsIntKeyed(flags)
  }

  // ---------------------------------------------------------------------------------
  // The server string
  // ---------------------------------------------------------------------------------

  function PortPart(port: Option<int>): string {
    if port.Some? then ":" + IntToString(port.value) else ""
  }

  /** `$service != 'imap'`, where a NULL service compares (and concatenates) as "". */
  function ServicePart(service: Option<string>): string {
    var s := if service.Some? then service.value else "";
    if s != "imap" then "/" + s else ""
  }

  /** "/" before each flag, in insertion order. */
  function FlagsPart(flags: seq<string>): string {
    if flags == [] then "" else FlagsPart(flags[..|flags| - 1]) + ("/" + flags[|flags| - 1])
  }

  lemma FlagsPartStep(flags: seq<string>, i: nat)
    requires i < |flags|
    ensures FlagsPart(flags[..i + 1]) == FlagsPart(flags[..i]) + ("/" + flags[i])
  {
    assert flags[..i + 1][..i] == flags[..i];
  }

  function MailboxPart(mailbox: Option<string>): string {
    if mailbox.Some? then mailbox.value else ""
  }

  /** The mailbox specification passed to `imap_open`. */
  function ServerStringOf(serverPath: string, port: Option<int>, service: Option<string>,
                          flags: seq<string>, mailbox: Option<string>): string
  {
    "{" + serverPath + PortPart(port) + ServicePart(service) + FlagsPart(flags) + "}" + MailboxPart(mailbox)
  }

  // ---------------------------------------------------------------------------------
  // The Imap object
  // ---------------------------------------------------------------------------------

  class Imap {
    var serverPath: string
    var mailbox: Option<string>
    var flags: Array<string>
    var port: Option<int>
    var options: Scalar
    var service: Option<string>

    ghost predicate Valid()
      reads this
    {
      FlagsInvariant(flags)
    }

    /** `new Imap($server_path, $port = 143, $service = 'imap')`, with `Imap::$ssl_enable` as `sslEnable`. */
    constructor (serverPath: string, port: Option<int> := Some(143), service: Option<string> := Some("imap"),
                 sslEnable: bool := true)
      ensures Valid()
      ensures this.serverPath == serverPath && this.port == port && this.service == service
      ensures mailbox == None && options == PInt(0)
      ensures flags == if sslEnable && port == Some(143) then Append(Empty(), "novalidate-cert")
                       else if sslEnable && port == Some(993) then Append(Empty(), "ssl")
                       else Empty()
      ensures Values(flags) == if sslEnable && port == Some(143) then ["novalidate-cert"]
                               else if sslEnable && port == Some(993) then ["ssl"]
                               else []
    {
      this.serverPath := serverPath;
      this.mailbox := None;
      this.flags := Empty();
      this.port := port;
      this.options := PInt(0);
      this.service := Some("imap");
      new;
      if port == Some(143) {
        SetFlag("novalidate-cert", NoValue, sslEnable);
        if sslEnable {
          SetFlagAppendsBare(Empty(), "novalidate-cert", NoValue, sslEnable);
        } else {
          SetFlagSslGate(Empty(), "novalidate-cert", NoValue);
        }
      } else if port == Some(993) {
        SetFlag("ssl", NoValue, sslEnable);
        if sslEnable {
          SetFlagAppendsBare(Empty(), "ssl", NoValue, sslEnable);
        } else {
          SetFlagSslGate(Empty(), "ssl", NoValue);
        }
      }
      this.service := service;
    }

    /** `set_mailbox($mailbox = '')`, without reopening the stream. */
    method SetMailbox(mailbox: Option<string> := Some(""))
      modifies this`mailbox
      ensures this.mailbox == mailbox
    {
      this.mailbox := mailbox;
    }

    /** `set_flag($flag, $value = NULL)`. */
    method SetFlag(flag: string, value: FlagValue := NoValue, sslEnable: bool := true)
      requires Valid()
      modifies this`flags
      ensures Valid()
      ensures flags == SetFlagResult(old(flags), flag, value, sslEnable)
    {
      SetFlagPreservesInvariant(flags, flag, value, sslEnable);
      if !sslEnable && flag in SslFlags {
        return;
      }
      var kill := KillTarget(flag);
      if kill.Some? && HasKey(flags, KeyOf(kill.value)) {
        flags := Unset(flags, KeyOf(kill.value));
      }
      match value
      case NoValue =>
        flags := Append(flags, flag);
      case BoolValue(b) =>
        if b {
          flags := Append(flags, flag);
        } else {
          flags := Unset(flags, KeyOf(flag));
        }
      case StrValue(s) =>
        if s == "" || s == "0" {
          flags := Unset(flags, KeyOf(flag));
        } else {
          flags := Append(flags, flag + "=" + s);
        }
    }

    /** `set_options($bitmask = 0)`. */
    method SetOptions(bitmask: Scalar := PInt(0)) returns (outcome: Outcome)
      modifies this`options
      ensures outcome == ImapException <==> !IsNumeric(bitmask)
      ensures options == if IsNumeric(bitmask) then bitmask else old(options)
    {
      if !IsNumeric(bitmask) {
        return ImapException;
      }
      options := bitmask;
      outcome := Success;
    }

    function ServerString(): string
      reads this
    {
      ServerStringOf(serverPath, port, service, Values(flags), mailbox)
    }

    /** `get_server_string()`. */
    method GetServerString() returns (mailboxPath: string)
      ensures mailboxPath == ServerString()
    {
      mailboxPath := "{" + serverPath;
      if port.Some? {
        mailboxPath := mailboxPath + (":" + IntToString(port.value));
      }
      assert mailboxPath == "{" + serverPath + PortPart(port);
      var svc := if service.Some? then service.value else "";
      if svc != "imap" {
        mailboxPath := mailboxPath + ("/" + svc);
      }
      ghost var head := "{" + serverPath + PortPart(port) + ServicePart(service);
      assert mailboxPath == head;
      var vs := Values(flags);
      var i := 0;
      while i < |vs|
        invariant 0 <= i <= |vs|
        invariant mailboxPath == head + FlagsPart(vs[..i])
      {
        FlagsPartStep(vs, i);
        Associative(head, FlagsPart(vs[..i]), "/" + vs[i]);
        mailboxPath := mailboxPath + ("/" + vs[i]);
        i := i + 1;
      }
      assert vs[..i] == vs;
      mailboxPath := mailboxPath + "}";
      if mailbox.Some? {
        mailboxPath := mailboxPath + mailbox.value;
      }
      assert mailboxPath == head + FlagsPart(vs) + "}" + MailboxPart(mailbox);
    }

    /**
     * `search($criteria, $limit = NULL)`, given what `imap_search` returned for the
     * criteria (None for FALSE): the messages for the matching UIDs, cut to `limit`.
     */
    method Search(results: Option<seq<int>>, limit: Option<int> := None) returns (messages: Option<seq<Message>>)
      ensures messages.None? <==> results.None? || results.value == []
      ensures messages.Some? ==> |messages.value| <= |results.value|
      ensures messages.Some? ==>
        forall k :: 0 <= k < |messages.value| ==> messages.value[k] == Message(results.value[k])
      ensures messages.Some? && (limit.None? || limit.value >= |results.value|) ==>
        |messages.value| == |results.value|
      ensures messages.Some? && limit.Some? && 0 <= limit.value < |results.value| ==>
        |messages.value| == limit.value
      ensures messages.Some? && limit.Some? && limit.value < 0 ==>
        |messages.value| == if |results.value| + limit.value > 0 then |results.value| + limit.value else 0
    {
      if results.None? || results.value == [] {
        return None;
      }
      var uids := results.value;
      if limit.Some? && |uids| > limit.value {
        uids := SliceFromStart(uids, limit.value);
      }
      var list: seq<Message> := [];
      var i := 0;
      while i < |uids|
        invariant 0 <= i <= |uids|
        invariant |list| == i
        invariant forall k :: 0 <= k < i ==> list[k] == Message(uids[k])
      {
        list := list + [Message(uids[i])];
        i := i + 1;
      }
      messages := Some(list);
    }

    /**
     * `get_messages($limit = NULL)`, given the mailbox's message count (`imap_num_msg`)
     * and the UID of each sequence number (`imap_uid`).
     */
    method GetMessages(numMessages: int, uidOf: int -> int, limit: Option<int> := None)
      returns (messages: Option<seq<Message>>)
      ensures var n := if limit.Some? && limit.value < numMessages then limit.value else numMessages;
        && (messages.None? <==> n < 1)
        && (messages.Some? ==> |messages.value| == n)
        && (messages.Some? ==> forall k :: 0 <= k < n ==> messages.value[k] == Message(uidOf(k + 1)))
    {
      var count := numMessages;
      if limit.Some? && limit.value < count {
        count := limit.value;
      }
      if count < 1 {
        return None;
      }
      var list: seq<Message> := [];
      var i := 1;
      while i <= count
        invariant 1 <= i <= count + 1
        invariant |list| == i - 1
        invariant forall k :: 0 <= k < i - 1 ==> list[k] == Message(uidOf(k + 1))
      {
        list := list + [Message(uidOf(i))];
        i := i + 1;
      }
      messages := Some(list);
    }
  }

  // ---------------------------------------------------------------------------------
  // Properties of set_flag
  // ---------------------------------------------------------------------------------

  /** The exclusion table as `set_flag` reads it: a key kills itself, a value kills its key. */
  lemma KillTargetTable(flag: string)
    ensures KillTarget(flag) == if flag == "validate-cert" || flag == "tls" then Some(flag)
                                else if flag == "novalidate-cert" then Some("validate-cert")
                                else if flag == "notls" then Some("tls")
                                else None
  {
    if IsTableKey(ExclusiveFlags, flag) {
      var i :| 0 <= i < |ExclusiveFlags| && ExclusiveFlags[i].0 == flag;
    } else if flag == "novalidate-cert" {
      assert ExclusiveFlags[0].1 == flag;
    } else if flag == "notls" {
      assert ExclusiveFlags[1].1 == flag;
    } else {
      assert forall i :: 0 <= i < |ExclusiveFlags| ==> ExclusiveFlags[i].1 != flag;
    }
  }

  /** Every kill target is a string key, which an integer-keyed array never holds. */
  lemma KillIsNoOp(flags: Array<string>, flag: string)
    requires FlagsInvariant(flags)
    ensures KillTarget(flag).Some? ==> !HasKey(flags, KeyOf(KillTarget(flag).value))
  {
    KillTargetTable(flag);
    if KillTarget(flag).Some? {
      KeyOfNonNumeric(KillTarget(flag).value);
    }
  }

  /** Without SSL support the SSL-dependent flags are ignored: nothing changes. */
  lemma SetFlagSslGate(flags: Array<string>, flag: string, value: FlagValue)
    requires flag in SslFlags
    ensures SetFlagResult(flags, flag, value, false) == flags
  {
  }

  /** With NULL or TRUE, the bare flag becomes the last entry, under the next integer key. */
  lemma SetFlagAppendsBare(flags: Array<string>, flag: string, value: FlagValue, sslEnable: bool)
    requires FlagsInvariant(flags)
    requires sslEnable || flag !in SslFlags
    requires value == NoValue || value == BoolValue(true)
    ensures SetFlagResult(flags, flag, value, sslEnable).entries == flags.entries + [Entry(IntKey(flags.nextIndex), flag)]
    ensures Values(SetFlagResult(flags, flag, value, sslEnable)) == Values(flags) + [flag]
  {
    KillIsNoOp(flags, flag);
    AppendWellFormed(flags, flag);
  }

  /** With a truthy string, "flag=value" becomes the last entry, under the next integer key. */
  lemma SetFlagAppendsPair(flags: Array<string>, flag: string, s: string, sslEnable: bool)
    requires FlagsInvariant(flags)
    requires sslEnable || flag !in SslFlags
    requires s != "" && s != "0"
    ensures SetFlagResult(flags, flag, StrValue(s), sslEnable).entries ==
      flags.entries + [Entry(IntKey(flags.nextIndex), flag + "=" + s)]
    ensures Values(SetFlagResult(flags, flag, StrValue(s), sslEnable)) == Values(flags) + [flag + "=" + s]
  {
    KillIsNoOp(flags, flag);
    AppendWellFormed(flags, flag + "=" + s);
  }

  /** With FALSE, "" or "0", nothing is appended: only the entry keyed by the flag name is unset. */
  lemma SetFlagFalsyOnlyUnsets(flags: Array<string>, flag: string, value: FlagValue, sslEnable: bool)
    requires FlagsInvariant(flags)
    requires sslEnable || flag !in SslFlags
    requires IsLooselyFalse(value)
    ensures SetFlagResult(flags, flag, value, sslEnable) == Unset(flags, KeyOf(flag))
    ensures KeyOf(flag).StrKey? ==> SetFlagResult(flags, flag, value, sslEnable) == flags
  {
    KillIsNoOp(flags, flag);
    if KeyOf(flag).StrKey? {
      UnsetStringKey(flags, KeyOf(flag));
    }
  }

  /**
   * A flag whose name is a decimal integer, cleared with FALSE, removes exactly the
   * entry appended under that index, whatever flag that entry holds.
   */
  lemma SetFlagFalsyDecimalName(flags: Array<string>, flag: string, value: FlagValue, sslEnable: bool, j: nat)
    requires FlagsInvariant(flags)
    requires IsLooselyFalse(value)
    requires j < |flags.entries| && flags.entries[j].key == KeyOf(flag)
    ensures Values(SetFlagResult(flags, flag, value, sslEnable)) == Values(flags)[..j] + Values(flags)[j + 1..]
  {
    assert flag !in SslFlags by {
      forall f | f in SslFlags
        ensures KeyOf(f) != KeyOf(flag)
      {
        KeyOfNonNumeric(f);
      }
    }
    SetFlagFalsyOnlyUnsets(flags, flag, value, sslEnable);
    UnsetPresent(flags, KeyOf(flag), j);
  }

  /** `set_flag` keeps the flags integer keyed and well formed. */
  lemma SetFlagPreservesInvariant(flags: Array<string>, flag: string, value: FlagValue, sslEnable: bool)
    requires FlagsInvariant(flags)
    ensures FlagsInvariant(SetFlagResult(flags, flag, value, sslEnable))
  {
    if sslEnable || flag !in SslFlags {
      KillIsNoOp(flags, flag);
      UnsetWellFormed(flags, KeyOf(flag));
      AppendWellFormed(flags, flag);
      if value.StrValue? {
        AppendWellFormed(flags, flag + "=" + value.s);
      }
    }
  }

  /**
   * For a flag name that is not a decimal integer no stored entry is ever removed:
   * the old entries stay, in order, and at most one is added.
   */
  lemma SetFlagKeepsEntries(flags: Array<string>, flag: string, value: FlagValue, sslEnable: bool)
    requires FlagsInvariant(flags)
    requires KeyOf(flag).StrKey?
    ensures flags.entries <= SetFlagResult(flags, flag, value, sslEnable).entries
    ensures |SetFlagResult(flags, flag, value, sslEnable).entries| <= |flags.entries| + 1
  {
    if sslEnable || flag !in SslFlags {
      if value == NoValue || value == BoolValue(true) {
        SetFlagAppendsBare(flags, flag, value, sslEnable);
      } else if IsLooselyFalse(value) {
        SetFlagFalsyOnlyUnsets(flags, flag, value, sslEnable);
      } else {
        SetFlagAppendsPair(flags, flag, value.s, sslEnable);
      }
    }
  }

  // The doc-comment of `$exclusive_flags` and of `set_flag` promise that a flag removes its
  // partner and that FALSE clears a flag. The code removes by string key from an array
  // filled by `[]` appends, which is keyed by integers; these three instances show it.

  /** The flags a new port-143 connection holds: "novalidate-cert" survives `set_flag('validate-cert')`: both are sent. */
  lemma ExclusivePartnersCoexist()
    ensures Values(SetFlagResult(Append(Empty(), "novalidate-cert"), "validate-cert", NoValue, true)) ==
      ["novalidate-cert", "validate-cert"]
  {
    SetFlagAppendsBare(Append(Empty(), "novalidate-cert"), "validate-cert", NoValue, true);
  }

  /** On the port-143 flags, `set_flag('novalidate-cert', FALSE)` does not clear "novalidate-cert". */
  lemma ClearingKeepsFlag()
    ensures Values(SetFlagResult(Append(Empty(), "novalidate-cert"), "novalidate-cert", BoolValue(false), true)) ==
      ["novalidate-cert"]
  {
    SetFlagFalsyOnlyUnsets(Append(Empty(), "novalidate-cert"), "novalidate-cert", BoolValue(false), true);
  }

  /** On the port-143 flags, `set_flag('0', FALSE)` clears the unrelated flag stored under index 0. */
  lemma DecimalFlagClearsFirstEntry()
    ensures Values(SetFlagResult(Append(Empty(), "novalidate-cert"), "0", BoolValue(false), true)) == []
  {
    KeyOfIntKey("0", 0);
    SetFlagFalsyDecimalName(Append(Empty(), "novalidate-cert"), "0", BoolValue(false), true, 0);
  }

  /** On a new port-143 connection, `set_flag('validate-cert')` sends both flags. */
  method NewConnectionKeepsPartner() returns (sent: seq<string>)
    ensures sent == ["novalidate-cert", "validate-cert"]
  {
    var conn := new Imap("host", Some(143));
    conn.SetFlag("validate-cert");
    ExclusivePartnersCoexist();
    sent := Values(conn.flags);
  }

  /** On a new port-143 connection, `set_flag('novalidate-cert', FALSE)` keeps the flag. */
  method NewConnectionClearingKeepsFlag() returns (sent: seq<string>)
    ensures sent == ["novalidate-cert"]
  {
    var conn := new Imap("host", Some(143));
    conn.SetFlag("novalidate-cert", BoolValue(false));
    ClearingKeepsFlag();
    sent := Values(conn.flags);
  }

  /** On a new port-143 connection, `set_flag('0', FALSE)` empties the flags. */
  method NewConnectionDecimalClear() returns (sent: seq<string>)
    ensures sent == []
  {
    var conn := new Imap("host", Some(143));
    conn.SetFlag("0", BoolValue(false));
    DecimalFlagClearsFirstEntry();
    sent := Values(conn.flags);
  }

  // ---------------------------------------------------------------------------------
  // Properties of the server string
  // ---------------------------------------------------------------------------------

  lemma {:induction false} FlagsPartAvoids(flags: seq<string>, c: char)
    requires c != '/' && forall f :: f in flags ==> c !in f
    ensures c !in FlagsPart(flags)
  {
    if flags != [] {
      FlagsPartAvoids(flags[..|flags| - 1], c);
      assert flags[|flags| - 1] in flags;
    }
  }

  lemma IntToStringAvoidsBrace(i: int)
    ensures '}' !in IntToString(i)
  {
    var t := if i < 0 then NatToString(-i) else NatToString(i);
    assert forall k :: 0 <= k < |t| ==> t[k] != '}';
  }

  /**
   * When no part before it holds a '}', everything after the first '}' of the server
   * string is the mailbox: the string can be read back at that brace.
   */
  lemma MailboxAfterFirstBrace(serverPath: string, port: Option<int>, service: Option<string>,
                               flags: seq<string>, mailbox: Option<string>)
    requires '}' !in serverPath
    requires service.Some? ==> '}' !in service.value
    requires forall f :: f in flags ==> '}' !in f
    ensures AfterFirst(ServerStringOf(serverPath, port, service, flags, mailbox), '}') == Some(MailboxPart(mailbox))
  {
    if port.Some? {
      IntToStringAvoidsBrace(port.value);
    }
    FlagsPartAvoids(flags, '}');
    var head := "{" + serverPath + PortPart(port) + ServicePart(service) + FlagsPart(flags);
    assert ServerStringOf(serverPath, port, service, flags, mailbox) == head + ['}'] + MailboxPart(mailbox);
    AfterFirstConcat(head, '}', MailboxPart(mailbox));
  }

  /** A bare `set_flag` inserts "/flag" just before the closing '}' and changes nothing else. */
  lemma ServerStringAfterBareFlag(serverPath: string, port: Option<int>, service: Option<string>,
                                  flags: Array<string>, mailbox: Option<string>, flag: string, sslEnable: bool)
    requires FlagsInvariant(flags)
    requires sslEnable || flag !in SslFlags
    ensures var before := ServerStringOf(serverPath, port, service, Values(flags), mailbox);
      var k := |before| - |MailboxPart(mailbox)| - 1;
      0 <= k < |before| &&
      ServerStringOf(serverPath, port, service, Values(SetFlagResult(flags, flag, NoValue, sslEnable)), mailbox) ==
        before[..k] + "/" + flag + before[k..]
  {
    SetFlagAppendsBare(flags, flag, NoValue, sslEnable);
    ServerStringOfAppend(serverPath, port, service, Values(flags), mailbox, flag);
  }

  lemma ServerStringOfAppend(serverPath: string, port: Option<int>, service: Option<string>,
                             vs: seq<string>, mailbox: Option<string>, flag: string)
    ensures var before := ServerStringOf(serverPath, port, service, vs, mailbox);
      var k := |before| - |MailboxPart(mailbox)| - 1;
      0 <= k < |before| &&
      ServerStringOf(serverPath, port, service, vs + [flag], mailbox) == before[..k] + "/" + flag + before[k..]
  {
    assert (vs + [flag])[..|vs|] == vs;
    assert FlagsPart(vs + [flag]) == FlagsPart(vs) + ("/" + flag);
    var head := "{" + serverPath + PortPart(port) + ServicePart(service) + FlagsPart(vs);
    var tail := "}" + MailboxPart(mailbox);
    var before := ServerStringOf(serverPath, port, service, vs, mailbox);
    Associative(head, "}", MailboxPart(mailbox));
    assert before == head + tail;
    Associative("{" + serverPath + PortPart(port) + ServicePart(service), FlagsPart(vs), "/" + flag);
    Associative(head + ("/" + flag), "}", MailboxPart(mailbox));
    assert ServerStringOf(serverPath, port, service, vs + [flag], mailbox) == head + ("/" + flag) + tail;
    SpliceBefore(head, "/" + flag, tail);
    Associative(head, "/", flag);
  }

  /** Regrouping a concatenation; stated once so that callers need not unfold sequence append. */
  lemma Associative(a: string, b: string, c: string)
    ensures (a + b) + c == a + (b + c)
  {
  }

  /** Splitting `a + b` at `|a|` and inserting `ins` there gives `a + ins + b`. */
  lemma SpliceBefore(a: string, ins: string, b: string)
    ensures (a + b)[..|a|] + ins + (a + b)[|a|..] == a + ins + b
  {
    assert (a + b)[..|a|] == a;
    assert (a + b)[|a|..] == b;
  }
}
