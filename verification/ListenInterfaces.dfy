/** Normalisation of the list of interfaces to listen on. */
module ListenInterfaces {
  import opened Common

  const AUTO := "auto:"

  predicate IsDigit(c: char) {
    '0' <= c <= '9'
  }

  predicate IsSpace(c: char) {
    c == ' ' || 9 as char <= c <= 13 as char
  }

  function StripSpaces(s: string): string {
    if s == "" then "" else (if IsSpace(s[0]) then "" else [s[0]]) + StripSpaces(s[1..])
  }

  predicate NoSpaces(s: string) {
    forall i :: 0 <= i < |s| ==> !IsSpace(s[i])
  }

  predicate NoCommas(s: string) {
    forall i :: 0 <= i < |s| ==> s[i] != ','
  }

  predicate AllDigits(s: string) {
    forall i :: 0 <= i < |s| ==> IsDigit(s[i])
  }

  /** An entry that ends with a colon and at least one digit. */
  predicate HasPort(entry: string) {
    exists k :: 0 <= k < |entry| - 1 && entry[k] == ':' && AllDigits(entry[k + 1..])
  }

  function Normalised(entry: string, port: string): string {
    if HasPort(entry) then entry else entry + ":" + port
  }

  function NormalisedAll(entries: seq<string>, port: string): (r: seq<string>)
    ensures |r| == |entries|
    ensures forall i :: 0 <= i < |entries| ==> r[i] == Normalised(entries[i], port)
  {
    seq(|entries|, i requires 0 <= i < |entries| => Normalised(entries[i], port))
  }

  /** The comma-separated entries of a string; there is always one, and it may be empty. */
  function Split(s: string): (entries: seq<string>)
    ensures entries != []
  {
    if s == "" then [""]
    else
      var rest := Split(s[1..]);
      if s[0] == ',' then [""] + rest else [[s[0]] + rest[0]] + rest[1..]
  }

  function Join(entries: seq<string>): string {
    if entries == [] then ""
    else if |entries| == 1 then entries[0]
    else entries[0] + "," + Join(entries[1..])
  }

  method JoinStringVector(entries: seq<string>) returns (s: string)
    ensures s == Join(entries)
  {
    s := "";
    var i := 0;
    if i < |entries| {
      s := entries[i];
      i := i + 1;
      while i < |entries|
        invariant 1 <= i <= |entries|
        invariant Join(entries) == s + if i == |entries| then "" else "," + Join(entries[i..])
      {
        s := s + "," + entries[i];
        i := i + 1;
      }
    }
  }

  lemma {:induction false} JoinSplit(s: string)
    ensures Join(Split(s)) == s
  {
    if s != "" {
      JoinSplit(s[1..]);
      var rest := Split(s[1..]);
      if s[0] == ',' {
        assert ([""] + rest)[1..] == rest;
      } else {
        assert ([[s[0]] + rest[0]] + rest[1..])[1..] == rest[1..];
      }
    }
  }

  lemma {:induction false} SplitNone(s: string)
    requires NoCommas(s)
    ensures Split(s) == [s]
  {
    if s != "" {
      SplitNone(s[1..]);
      assert [s[0]] + s[1..] == s;
    }
  }

  lemma {:induction false} SplitFirst(entry: string, rest: string)
    requires NoCommas(entry)
    ensures Split(entry + "," + rest) == [entry] + Split(rest)
  {
    var s := entry + "," + rest;
    if entry == "" {
      assert s[1..] == rest;
    } else {
      SplitFirst(entry[1..], rest);
      assert s[1..] == entry[1..] + "," + rest;
      assert entry == [entry[0]] + entry[1..];
    }
  }

  /** Splitting undoes joining when no entry holds a comma. */
  lemma {:induction false} SplitJoin(entries: seq<string>)
    requires entries != [] && forall i :: 0 <= i < |entries| ==> NoCommas(entries[i])
    ensures Split(Join(entries)) == entries
  {
    if |entries| == 1 {
      SplitNone(entries[0]);
    } else {
      SplitJoin(entries[1..]);
      SplitFirst(entries[0], Join(entries[1..]));
    }
  }

  lemma {:induction false} SplitHasNoCommas(s: string)
    ensures forall i :: 0 <= i < |Split(s)| ==> NoCommas(Split(s)[i])
  {
    if s != "" {
      SplitHasNoCommas(s[1..]);
    }
  }

  /** What the code reads up to the next comma, what is left, and whether there was a comma. */
  function GetLine(s: string): (r: (string, string, bool))
    ensures |r.1| <= |s| && (r.2 ==> |r.1| < |s|)
    ensures Split(s) == [r.0] + if r.2 then Split(r.1) else []
  {
    if s == "" then ("", "", false)
    else if s[0] == ',' then ("", s[1..], true)
    else
      var next := GetLine(s[1..]);
      ([s[0]] + next.0, next.1, next.2)
  }

  /** The branch for explicit interfaces: each entry as it is, with the default port when it has none. */
  method ExplicitInterfaces(config: string, port: string) returns (interfaces: seq<string>)
    ensures interfaces == NormalisedAll(Split(config), port)
  {
    hide NormalisedAll, Split;
    interfaces := [];
    var rest, good := config, true;
    while good
      invariant |interfaces| <= |Split(config)|
      invariant interfaces == NormalisedAll(Split(config)[..|interfaces|], port)
      invariant Split(config)[|interfaces|..] == if good then Split(rest) else []
      decreases good, |rest|
    {
      var line := GetLine(rest);
      var entry := line.0;
      if !HasPort(entry) {
        entry := entry + ":" + port;
      }
      assert entry == Normalised(line.0, port);
      NormalisedNext(Split(config), |interfaces|, line.0, if line.2 then Split(line.1) else [], port);
      interfaces := interfaces + [entry];
      rest, good := line.1, line.2;
    }
    assert Split(config)[..|interfaces|] == Split(config);
  }

  lemma NormalisedNext(entries: seq<string>, n: nat, entry: string, rest: seq<string>, port: string)
    requires n <= |entries| && entries[n..] == [entry] + rest
    ensures n < |entries| && entries[n + 1..] == rest
    ensures NormalisedAll(entries[..n + 1], port) == NormalisedAll(entries[..n], port) + [Normalised(entry, port)]
  {
    assert entries[n] == entries[n..][0] == entry;
    assert entries[n + 1..] == entries[n..][1..];
  }

  datatype Choice = Default | Automatic(names: string) | Explicit(interfaces: string)

  /** Which branch a configured list takes, and for an explicit list the interfaces set. */
  function Configured(raw: string, port: string): Choice {
    var config := StripSpaces(raw);
    if config == "" then Default
    else if AUTO <= config then Automatic(config[|AUTO|..])
    else Explicit(Join(NormalisedAll(Split(config), port)))
  }

  /** The whole choice; the regular-expression replacement of white space is a library call. */
  method ConfigureListenInterfaces(raw: string, port: string) returns (choice: Choice)
    ensures choice == Configured(raw, port)
  {
    var config := StripSpaces(raw);
    if config == "" {
      return Default;
    }
    if AUTO <= config {
      return Automatic(config[|AUTO|..]);
    }
    var interfaces := ExplicitInterfaces(config, port);
    var joined := JoinStringVector(interfaces);
    return Explicit(joined);
  }

  predicate IsPort(port: string) {
    port != "" && AllDigits(port)
  }

  lemma PortHasNoSeparators(port: string)
    requires IsPort(port)
    ensures NoCommas(":" + port) && NoSpaces(":" + port)
  {
    forall i | 0 <= i < |":" + port|
      ensures (":" + port)[i] != ',' && !IsSpace((":" + port)[i])
    {
      assert i > 0 ==> IsDigit(port[i - 1]);
    }
  }

  lemma NormalisedHasPort(entry: string, port: string)
    requires IsPort(port)
    ensures HasPort(Normalised(entry, port))
    ensures NoCommas(entry) ==> NoCommas(Normalised(entry, port))
    ensures NoSpaces(entry) ==> NoSpaces(Normalised(entry, port))
  {
    if !HasPort(entry) {
      var with := entry + ":" + port;
      PortHasNoSeparators(port);
      assert with == entry + (":" + port);
      assert with[|entry|] == ':' && with[|entry| + 1..] == port;
    }
  }

  lemma {:induction false} StrippedHasNoSpaces(s: string)
    ensures NoSpaces(StripSpaces(s))
  {
    if s != "" {
      StrippedHasNoSpaces(s[1..]);
    }
  }

  lemma {:induction false} StripNothing(s: string)
    requires NoSpaces(s)
    ensures StripSpaces(s) == s
  {
    if s != "" {
      StripNothing(s[1..]);
    }
  }

  lemma {:induction false} SplitHasNoSpaces(s: string)
    requires NoSpaces(s)
    ensures forall i :: 0 <= i < |Split(s)| ==> NoSpaces(Split(s)[i])
  {
    if s != "" {
      SplitHasNoSpaces(s[1..]);
    }
  }

  lemma {:induction false} JoinHasNoSpaces(entries: seq<string>)
    requires forall i :: 0 <= i < |entries| ==> NoSpaces(entries[i])
    ensures NoSpaces(Join(entries))
  {
    if |entries| > 1 {
      JoinHasNoSpaces(entries[1..]);
    }
  }

  /** The entries set are those configured, in order, each with the default port appended iff it has none. */
  lemma EntriesKept(config: string, port: string)
    requires IsPort(port)
    ensures var entries := NormalisedAll(Split(config), port);
            && Split(Join(entries)) == entries
            && forall i :: 0 <= i < |entries| ==> HasPort(entries[i])
  {
    var entries := NormalisedAll(Split(config), port);
    SplitHasNoCommas(config);
    forall i | 0 <= i < |entries|
      ensures NoCommas(entries[i]) && HasPort(entries[i])
    {
      NormalisedHasPort(Split(config)[i], port);
    }
    SplitJoin(entries);
  }

  lemma StartsWithFirst(entries: seq<string>)
    requires entries != []
    ensures AUTO <= Join(entries) <==> AUTO <= entries[0]
  {
    var s, first := Join(entries), entries[0];
    assert first <= s;
    if |entries| > 1 && |first| < |AUTO| {
      assert s[|first|] == ',' && AUTO[|first|] != ',';
    }
  }

  lemma NormalisedStartsAuto(entry: string, port: string)
    requires !(AUTO <= entry)
    ensures AUTO <= Normalised(entry, port) <==> entry == "auto"
  {
    if !HasPort(entry) {
      var with := entry + ":" + port;
      if entry == "auto" {
        AutoHasNoPort();
        assert with[..5] == AUTO;
      } else if |entry| < 4 {
        assert with[|entry|] == ':' && AUTO[|entry|] != ':';
      } else {
        assert entry[..4] == with[..4] && AUTO[..4] == "auto";
        if |entry| > 4 {
          assert entry[..5] == with[..5];
        }
      }
    } else {
      AutoHasNoPort();
    }
  }

  lemma AutoHasNoPort()
    ensures !HasPort("auto")
  {
    assert forall k :: 0 <= k < 4 ==> "auto"[k] != ':';
  }

  /**
   * Normalising the result again gives it back, by the same branch, iff the first entry is not the
   * bare word "auto": that one becomes "auto:" and the port, which reads as automatic interfaces.
   */
  lemma NormalisedAgain(raw: string, port: string)
    requires IsPort(port) && Configured(raw, port).Explicit?
    ensures var r := Configured(raw, port);
            Configured(r.interfaces, port) == r <==> Split(StripSpaces(raw))[0] != "auto"
  {
    var config := StripSpaces(raw);
    var entries := NormalisedAll(Split(config), port);
    var result := Join(entries);
    EntriesKept(config, port);
    assert NormalisedAll(entries, port) == entries;
    StrippedHasNoSpaces(raw);
    SplitHasNoSpaces(config);
    forall i | 0 <= i < |entries|
      ensures NoSpaces(entries[i])
    {
      NormalisedHasPort(Split(config)[i], port);
    }
    JoinHasNoSpaces(entries);
    StripNothing(result);
    JoinSplit(config);
    StartsWithFirst(Split(config));
    StartsWithFirst(entries);
    NormalisedStartsAuto(Split(config)[0], port);
    assert HasPort(entries[0]) && entries[0] <= result;
  }

  /** Such a list: "auto" alone, with any port, then asks for automatic interfaces on an interface named as the port. */
  lemma AutoTwice(port: string)
    requires IsPort(port)
    ensures Configured("auto", port) == Explicit(AUTO + port)
    ensures Configured(AUTO + port, port) == Automatic(port)
  {
    AutoHasNoPort();
    PortHasNoSeparators(port);
    assert NoSpaces("auto") && NoCommas("auto");
    StripNothing("auto");
    assert AUTO + port == "auto" + (":" + port);
    assert NoSpaces(AUTO + port);
    StripNothing(AUTO + port);
    assert Split("auto") == ["auto"];
    assert Normalised("auto", port) == AUTO + port;
    var entries := NormalisedAll(["auto"], port);
    assert |entries| == 1 && entries[0] == AUTO + port;
    assert Join([AUTO + port]) == AUTO + port;
  }

  // ------------------------------------------------------------------------------------------
  // What the parts of the normalisation do, said without their definitions.

  /** A number written in decimal digits, as ports are. */
  function Decimal(n: nat): string {
    if n < 10 then [n as char + '0'] else Decimal(n / 10) + [(n % 10) as char + '0']
  }

  lemma {:induction false} DecimalIsPort(n: nat)
    ensures IsPort(Decimal(n))
  {
    if n >= 10 {
      DecimalIsPort(n / 10);
    }
  }

  /**
   * An entry has a port iff it is something followed by a colon and digits; so one that ends in another character
   * has none, like an address in brackets.
   */
  lemma HasPortIff(entry: string)
    ensures HasPort(entry) <==> exists host, port :: IsPort(port) && entry == host + ":" + port
    ensures entry != "" && !IsDigit(entry[|entry| - 1]) ==> !HasPort(entry)
    ensures (forall i :: 0 <= i < |entry| ==> entry[i] != ':') ==> !HasPort(entry)
  {
    if k :| 0 <= k < |entry| - 1 && entry[k] == ':' && AllDigits(entry[k + 1..]) {
      assert IsPort(entry[k + 1..]) && entry == entry[..k] + ":" + entry[k + 1..];
      assert entry[k + 1..][|entry| - k - 2] == entry[|entry| - 1];
    }
    forall host, port | IsPort(port) && entry == host + ":" + port
      ensures HasPort(entry)
    {
      assert entry[|host|] == ':' && entry[|host| + 1..] == port;
    }
  }

  /** Entries with a port, in any decimal digits, are kept; others get the default one after a colon. */
  lemma PortsKept(host: string, n: nat, port: string)
    ensures Normalised(host + ":" + Decimal(n), port) == host + ":" + Decimal(n)
    ensures Normalised("[::1]", port) == "[::1]:" + port
    ensures (forall i :: 0 <= i < |host| ==> host[i] != ':') ==> Normalised(host, port) == host + ":" + port
  {
    DecimalIsPort(n);
    HasPortIff(host + ":" + Decimal(n));
    HasPortIff("[::1]");
    HasPortIff(host);
    hide HasPort;
  }

  lemma {:induction false} StripSkips(a: string, c: char, b: string)
    requires IsSpace(c)
    ensures StripSpaces(a + [c] + b) == StripSpaces(a + b)
  {
    if a == "" {
      assert (a + [c] + b)[1..] == b && a + b == b;
    } else {
      StripSkips(a[1..], c, b);
      assert (a + [c] + b)[1..] == a[1..] + [c] + b && (a + b)[1..] == a[1..] + b;
    }
  }

  /** White space, which is a space, tab, line feed, vertical tab, form feed or carriage return, does not count. */
  lemma WhiteSpaceIgnored(a: string, c: char, b: string, port: string)
    requires c as int in {32, 9, 10, 11, 12, 13}
    ensures Configured(a + [c] + b, port) == Configured(a + b, port)
  {
    StripSkips(a, c, b);
    hide StripSpaces;
  }

  /** The branch taken for a list without white space: none, one that starts with "auto:", and any other. */
  lemma BranchTaken(names: string, list: string, port: string)
    requires NoSpaces(names) && NoSpaces(list)
    ensures Configured("", port) == Default
    ensures Configured("auto:" + names, port) == Automatic(names)
    ensures list != "" && !("auto:" <= list) ==> Configured(list, port).Explicit?
  {
    assert NoSpaces(AUTO + names) by {
      assert NoSpaces(AUTO);
    }
    StripNothing(AUTO + names);
    StripNothing(list);
    assert (AUTO + names)[|AUTO|..] == names;
  }
}
