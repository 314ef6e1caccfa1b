/** Decoding of a compact filter string such as
    `%,gender%=male%=female%,account_balance%>10` into per-table lists of
    clauses: tokenising on `%`, collecting comparators under the current key
    name, and flushing them into the result dictionary. */
module TransferFilterProcess {
  import opened TransferFilterTypes
  import opened TransferFilterHandlers

  // ---------------------------------------------------------------------
  // Tokenising (`str.split`)
  // ---------------------------------------------------------------------

  /** Split `s` at every occurrence of `sep`; empty pieces are kept, so the
      result always has one more piece than `s` has separators. */
  function Split(s: string, sep: char): (parts: seq<string>)
    ensures |parts| >= 1
  {
    if s == [] then [[]]
    else
      var rest := Split(s[1..], sep);
      if s[0] == sep then [[]] + rest else [[s[0]] + rest[0]] + rest[1..]
  }

  /** `sep.join(parts)`, the partner of Split. */
  function Join(parts: seq<string>, sep: char): (s: string)
    requires |parts| >= 1
  {
    if |parts| == 1 then parts[0] else parts[0] + [sep] + Join(parts[1..], sep)
  }

  /** Joining the pieces of a split gives back the original string, and no
      piece contains the separator. */
  lemma {:induction false} SplitJoin(s: string, sep: char)
    ensures Join(Split(s, sep), sep) == s
    ensures forall j :: 0 <= j < |Split(s, sep)| ==> sep !in Split(s, sep)[j]
  {
    if s != [] {
      var rest := Split(s[1..], sep);
      SplitJoin(s[1..], sep);
      var parts := Split(s, sep);
      if s[0] == sep {
        assert parts[1..] == rest;
      } else {
        assert parts[1..] == rest[1..];
        if |rest| > 1 {
          assert rest == [rest[0]] + rest[1..];
          assert Join(rest, sep) == rest[0] + [sep] + Join(rest[1..], sep);
        }
        assert s == [s[0]] + s[1..];
      }
    }
  }

  /** Splitting a join of separator-free pieces gives back the pieces. */
  lemma {:induction false} JoinSplit(parts: seq<string>, sep: char)
    requires |parts| >= 1
    requires forall j :: 0 <= j < |parts| ==> sep !in parts[j]
    ensures Split(Join(parts, sep), sep) == parts
  {
    if |parts| == 1 {
      SplitPiece(parts[0], [], sep);
      assert parts[0] + [] == parts[0];
      assert Split([], sep) == [[]];
      assert parts == [parts[0]];
    } else {
      var joined := Join(parts[1..], sep);
      JoinSplit(parts[1..], sep);
      SplitPiece(parts[0], [sep] + joined, sep);
      assert parts[0] + [sep] + joined == parts[0] + ([sep] + joined);
      assert ([sep] + joined)[1..] == joined;
      assert Split([sep] + joined, sep) == [[]] + parts[1..];
      assert parts[0] + [] == parts[0];
      assert parts == [parts[0]] + parts[1..];
    }
  }

  /** A separator-free prefix is glued to the first piece of what follows. */
  lemma {:induction false} SplitPiece(piece: string, tail: string, sep: char)
    requires sep !in piece
    ensures Split(piece + tail, sep) == [piece + Split(tail, sep)[0]] + Split(tail, sep)[1..]
  {
    if piece == [] {
      var t := Split(tail, sep);
      assert piece + tail == tail;
      assert piece + t[0] == t[0];
      assert t == [t[0]] + t[1..];
    } else {
      var t := Split(tail, sep);
      SplitPiece(piece[1..], tail, sep);
      assert (piece + tail)[1..] == piece[1..] + tail;
      var rest := Split(piece[1..] + tail, sep);
      assert rest[0] == piece[1..] + t[0] && rest[1..] == t[1..];
      assert (piece + tail)[0] == piece[0] != sep;
      assert [piece[0]] + (piece[1..] + t[0]) == piece + t[0];
    }
  }

  // ---------------------------------------------------------------------
  // Flushing collected comparators (`handle_filters_per_keyname`)
  // ---------------------------------------------------------------------

  /** The entry that flushing `toHandle` under `keyName` appends: tables are
      routed before kinds, so the custom-attribute table always uses the
      custom-attribute handler. */
  function FilterEntry(keyName: string, toHandle: seq<FilterAction>): Option<seq<Clause>>
    requires keyName in TransferFilters
  {
    if TransferFilters[keyName].table == CustomAttributeUserStorageTable
    then Some(CustomClauses(keyName, toHandle))
    else Dispatched(keyName, toHandle)
  }

  /** The list already stored under a table, or the empty list. */
  function TableEntries(filters: Filters, t: Table): seq<Option<seq<Clause>>>
  {
    if t in filters then filters[t] else []
  }

  /** The dictionary after flushing: one more entry under the key's table
      when there is an active key and at least one comparator, otherwise
      the dictionary unchanged. */
  function Flush(filters: Filters, toHandle: seq<FilterAction>, keyName: Option<string>): (r: Filters)
    requires keyName.Some? ==> keyName.value in TransferFilters
    ensures |toHandle| == 0 || keyName.None? ==> r == filters
    ensures |toHandle| > 0 && keyName.Some? ==>
              var t := TransferFilters[keyName.value].table;
              t in r && r[t] == TableEntries(filters, t) + [FilterEntry(keyName.value, toHandle)]
    ensures |toHandle| > 0 && keyName.Some? ==>
              forall u :: u != TransferFilters[keyName.value].table ==>
                (u in r <==> u in filters) && (u in filters ==> r[u] == filters[u])
  {
    if |toHandle| > 0 && keyName.Some? then
      var t := TransferFilters[keyName.value].table;
      filters[t := TableEntries(filters, t) + [FilterEntry(keyName.value, toHandle)]]
    else filters
  }

  /** `gender` is the only key of the custom-attribute table; it goes to the
      custom-attribute handler although its kind is DISCRETE, and every other
      key goes through the kind dispatch. */
  lemma RoutedByTableBeforeKind(keyName: string, toHandle: seq<FilterAction>)
    requires keyName in TransferFilters
    ensures keyName == "gender" ==>
              TransferFilters[keyName].kind == DiscreteKind
              && FilterEntry(keyName, toHandle) == Some(CustomClauses(keyName, toHandle))
    ensures keyName != "gender" ==> FilterEntry(keyName, toHandle) == Dispatched(keyName, toHandle)
  {
    OnlyGenderIsCustomAttribute(keyName);
  }

  /** Naming the same key twice adds a second entry rather than merging. */
  lemma RepeatedKeyAddsEntry(filters: Filters, keyName: string, first: seq<FilterAction>,
                             second: seq<FilterAction>)
    requires keyName in TransferFilters
    requires |first| > 0 && |second| > 0
    ensures var t := TransferFilters[keyName].table;
            var r := Flush(Flush(filters, first, Some(keyName)), second, Some(keyName));
            t in r && r[t] == TableEntries(filters, t) + [FilterEntry(keyName, first), FilterEntry(keyName, second)]
  {
    var t := TransferFilters[keyName].table;
    var once := Flush(filters, first, Some(keyName));
    assert TableEntries(once, t) == TableEntries(filters, t) + [FilterEntry(keyName, first)];
  }

  /** The result dictionary that `handle_filters_per_keyname` mutates in place. */
  class FilterSet {
    var byTable: Filters

    constructor ()
      ensures byTable == map[]
    {
      byTable := map[];
    }

    /** `handle_filters_per_keyname`. */
    method HandleFiltersPerKeyname(toHandle: seq<FilterAction>, keyName: Option<string>)
      requires keyName.Some? ==> keyName.value in TransferFilters
      modifies this
      ensures byTable == Flush(old(byTable), toHandle, keyName)
    {
      if |toHandle| > 0 && keyName.Some? {
        var currTable := TransferFilters[keyName.value].table;
        var existing := if currTable in byTable then byTable[currTable] else [];
        if currTable == CustomAttributeUserStorageTable {
          var formatted := HandleCustomUserStorageFilter(keyName.value, toHandle);
          byTable := byTable[currTable := existing + [Some(formatted)]];
        } else {
          var formatted := HandleFilter(keyName.value, toHandle);
          byTable := byTable[currTable := existing + [formatted]];
        }
      }
    }
  }

  // ---------------------------------------------------------------------
  // The token loop (`process_transfer_filters`)
  // ---------------------------------------------------------------------

  /** What the token loop carries: the dictionary, the active key name (only
      catalogue keys) and the comparators collected so far. */
  datatype ParseState = ParseState(filters: Filters, keyName: Option<string>, toHandle: seq<FilterAction>)

  ghost predicate ValidState(st: ParseState)
  {
    st.keyName.Some? ==> st.keyName.value in TransferFilters
  }

  const Initial: ParseState := ParseState(map[], None, [])

  predicate IsComparatorSymbol(symbol: char)
  {
    symbol == '=' || symbol == '<' || symbol == '>'
  }

  /** A token that names a catalogue key. */
  predicate KnownKeyToken(item: string)
  {
    |item| > 0 && item[0] == ',' && item[1..] in TransferFilters
  }

  /** A token that carries a comparator. */
  predicate ComparatorToken(item: string)
  {
    |item| > 0 && IsComparatorSymbol(item[0])
  }

  /** A token with no effect: empty, or with a symbol other than `,`, `=`, `<`, `>`. */
  predicate IgnoredToken(item: string)
  {
    |item| == 0 || (item[0] != ',' && !IsComparatorSymbol(item[0]))
  }

  /** The entry a comparator token contributes. */
  function ActionOf(item: string): (a: FilterAction)
    requires ComparatorToken(item)
    ensures a.value == item[1..]
    ensures a.comparator == Eq <==> item[0] == '='
  {
    FilterAction(ComparatorOf(item[0]), item[1..])
  }

  function ActionsOf(items: seq<string>): (r: seq<FilterAction>)
    requires forall j :: 0 <= j < |items| ==> ComparatorToken(items[j])
    ensures |r| == |items|
    ensures forall j :: 0 <= j < |items| ==> r[j] == ActionOf(items[j])
  {
    seq(|items|, j requires 0 <= j < |items| => ActionOf(items[j]))
  }

  /** One iteration of the token loop. */
  function Step(st: ParseState, item: string): (r: ParseState)
    requires ValidState(st)
    ensures ValidState(r)
  {
    if |item| == 0 then st
    else if item[0] == ',' then
      var flushed := Flush(st.filters, st.toHandle, st.keyName);
      if item[1..] in TransferFilters then ParseState(flushed, Some(item[1..]), [])
      else ParseState(flushed, None, st.toHandle)
    else if IsComparatorSymbol(item[0]) then
      st.(toHandle := st.toHandle + [ActionOf(item)])
    else st
  }

  /** The loop state after the given tokens. */
  function Scan(items: seq<string>): (st: ParseState)
    ensures ValidState(st)
    decreases |items|
  {
    if items == [] then Initial else Step(Scan(items[..|items| - 1]), items[|items| - 1])
  }

  /** The final flush after the loop. */
  function Finish(st: ParseState): Filters
    requires ValidState(st)
  {
    Flush(st.filters, st.toHandle, st.keyName)
  }

  function DecodeTokens(items: seq<string>): Filters
  {
    Finish(Scan(items))
  }

  /** The decoded dictionary of an encoded filter string. */
  function Decode(encodedFilters: string): Filters
  {
    DecodeTokens(Split(encodedFilters, '%'))
  }

  lemma ScanSnoc(items: seq<string>, item: string)
    ensures Scan(items + [item]) == Step(Scan(items), item)
  {
    assert (items + [item])[..|items|] == items;
  }

  /** `process_transfer_filters`. */
  method ProcessTransferFilters(encodedFilters: string) returns (result: Filters)
    ensures result == Decode(encodedFilters)
  {
    var tokenizedFilters := Split(encodedFilters, '%');
    var filters := new FilterSet();
    var currKeyName: Option<string> := None;
    var toHandle: seq<FilterAction> := [];
    assert tokenizedFilters[..0] == [];
    for i := 0 to |tokenizedFilters|
      invariant ParseState(filters.byTable, currKeyName, toHandle) == Scan(tokenizedFilters[..i])
    {
      var item := tokenizedFilters[i];
      assert tokenizedFilters[..i + 1] == tokenizedFilters[..i] + [item];
      ScanSnoc(tokenizedFilters[..i], item);
      if |item| > 0 {
        var symbol := item[0];
        var subject := item[1..];
        if symbol == ',' {
          filters.HandleFiltersPerKeyname(toHandle, currKeyName);
          currKeyName := None;
          if subject in TransferFilters {
            toHandle := [];
            currKeyName := Some(subject);
          }
        }
        if symbol == '=' || symbol == '<' || symbol == '>' {
          toHandle := toHandle + [FilterAction(ComparatorOf(symbol), subject)];
        }
      }
    }
    assert tokenizedFilters[..|tokenizedFilters|] == tokenizedFilters;
    filters.HandleFiltersPerKeyname(toHandle, currKeyName);
    result := filters.byTable;
  }

  // ---------------------------------------------------------------------
  // Properties of the token loop
  // ---------------------------------------------------------------------

  /** A token that is empty or has an unknown symbol can be removed without
      changing the loop state. */
  lemma {:induction false} IgnoredTokenHasNoEffect(before: seq<string>, item: string, after: seq<string>)
    requires IgnoredToken(item)
    ensures Scan(before + [item] + after) == Scan(before + after)
    decreases |after|
  {
    if after == [] {
      assert before + [item] + after == before + [item];
      assert before + after == before;
      ScanSnoc(before, item);
    } else {
      var last := after[|after| - 1];
      var init := after[..|after| - 1];
      IgnoredTokenHasNoEffect(before, item, init);
      assert before + [item] + after == (before + [item] + init) + [last];
      assert before + after == (before + init) + [last];
      ScanSnoc(before + [item] + init, last);
      ScanSnoc(before + init, last);
    }
  }

  /** Two loop states that lead to the same output: same dictionary, same
      active key, and the same collected comparators whenever a key is
      active (without one, they are never flushed). */
  ghost predicate SameOutcome(s1: ParseState, s2: ParseState)
  {
    s1.filters == s2.filters && s1.keyName == s2.keyName
    && (s1.keyName.Some? ==> s1.toHandle == s2.toHandle)
  }

  lemma {:induction false} SameOutcomeAfter(a: seq<string>, b: seq<string>, rest: seq<string>)
    requires SameOutcome(Scan(a), Scan(b))
    ensures SameOutcome(Scan(a + rest), Scan(b + rest))
    decreases |rest|
  {
    if rest == [] {
      assert a + rest == a && b + rest == b;
    } else {
      var last := rest[|rest| - 1];
      var init := rest[..|rest| - 1];
      SameOutcomeAfter(a, b, init);
      assert a + rest == (a + init) + [last];
      assert b + rest == (b + init) + [last];
      ScanSnoc(a + init, last);
      ScanSnoc(b + init, last);
    }
  }

  /** While no catalogue key is active, tokens that do not name one leave the
      dictionary and the (absent) key as they are. */
  lemma {:induction false} UnkeyedStretch(before: seq<string>, stretch: seq<string>)
    requires Scan(before).keyName.None?
    requires forall j :: 0 <= j < |stretch| ==> !KnownKeyToken(stretch[j])
    ensures SameOutcome(Scan(before + stretch), Scan(before))
    decreases |stretch|
  {
    if stretch == [] {
      assert before + stretch == before;
    } else {
      var last := stretch[|stretch| - 1];
      var init := stretch[..|stretch| - 1];
      UnkeyedStretch(before, init);
      assert before + stretch == (before + init) + [last];
      ScanSnoc(before + init, last);
    }
  }

  /** Comparators (and any other tokens) read while no catalogue key is
      active never reach the output: removing them does not change it. */
  lemma UnkeyedTokensAreDropped(before: seq<string>, stretch: seq<string>, after: seq<string>)
    requires Scan(before).keyName.None?
    requires forall j :: 0 <= j < |stretch| ==> !KnownKeyToken(stretch[j])
    ensures DecodeTokens(before + stretch + after) == DecodeTokens(before + after)
  {
    UnkeyedStretch(before, stretch);
    SameOutcomeAfter(before + stretch, before, after);
  }

  /** Comparators before the first key name are dropped. */
  lemma LeadingComparatorsAreDropped(stretch: seq<string>, after: seq<string>)
    requires forall j :: 0 <= j < |stretch| ==> !KnownKeyToken(stretch[j])
    ensures DecodeTokens(stretch + after) == DecodeTokens(after)
  {
    UnkeyedTokensAreDropped([], stretch, after);
    assert [] + stretch + after == stretch + after;
    assert [] + after == after;
  }

  /** Comparators after a key name that is not in the catalogue are dropped. */
  lemma UnknownKeyComparatorsAreDropped(before: seq<string>, keyToken: string, stretch: seq<string>,
                                        after: seq<string>)
    requires |keyToken| > 0 && keyToken[0] == ',' && keyToken[1..] !in TransferFilters
    requires forall j :: 0 <= j < |stretch| ==> !KnownKeyToken(stretch[j])
    ensures DecodeTokens(before + [keyToken] + stretch + after) == DecodeTokens(before + [keyToken] + after)
  {
    ScanSnoc(before, keyToken);
    UnkeyedTokensAreDropped(before + [keyToken], stretch, after);
  }

  /** A key name outside the catalogue still flushes the comparators
      collected for the active key, so up to the next catalogue key it
      decodes as if the input ended just before it. */
  lemma UnknownKeyActsAsEnd(before: seq<string>, keyToken: string, stretch: seq<string>)
    requires |keyToken| > 0 && keyToken[0] == ',' && keyToken[1..] !in TransferFilters
    requires forall j :: 0 <= j < |stretch| ==> !KnownKeyToken(stretch[j])
    ensures DecodeTokens(before + [keyToken] + stretch) == DecodeTokens(before)
  {
    UnknownKeyComparatorsAreDropped(before, keyToken, stretch, []);
    assert before + [keyToken] + stretch + [] == before + [keyToken] + stretch;
    assert before + [keyToken] + [] == before + [keyToken];
    ScanSnoc(before, keyToken);
  }

  /** A catalogue key name flushes what was collected before it, and then
      collects exactly the comparators that follow it, in order. */
  lemma {:induction false} KeyCollectsComparators(before: seq<string>, keyToken: string, comparators: seq<string>)
    requires KnownKeyToken(keyToken)
    requires forall j :: 0 <= j < |comparators| ==> ComparatorToken(comparators[j])
    ensures var st := Scan(before);
            Scan(before + [keyToken] + comparators)
              == ParseState(Flush(st.filters, st.toHandle, st.keyName), Some(keyToken[1..]), ActionsOf(comparators))
    decreases |comparators|
  {
    if comparators == [] {
      assert before + [keyToken] + comparators == before + [keyToken];
      ScanSnoc(before, keyToken);
    } else {
      var last := comparators[|comparators| - 1];
      var init := comparators[..|comparators| - 1];
      KeyCollectsComparators(before, keyToken, init);
      assert before + [keyToken] + comparators == (before + [keyToken] + init) + [last];
      ScanSnoc(before + [keyToken] + init, last);
      assert ActionsOf(comparators) == ActionsOf(init) + [ActionOf(last)];
    }
  }

  /** A key followed by comparators up to the end of the input yields the
      output of the tokens before it, flushed once more with those
      comparators under that key: by Flush's contract, one entry appended
      under the key's table and every other table as it was. */
  lemma TrailingKeyProducesOneEntry(before: seq<string>, keyToken: string, comparators: seq<string>)
    requires KnownKeyToken(keyToken)
    requires |comparators| > 0
    requires forall j :: 0 <= j < |comparators| ==> ComparatorToken(comparators[j])
    ensures DecodeTokens(before + [keyToken] + comparators)
         == Flush(DecodeTokens(before), ActionsOf(comparators), Some(keyToken[1..]))
  {
    KeyCollectsComparators(before, keyToken, comparators);
  }

  /** The `gender` part of the worked example: after `,gender%=male%=female`
      the pending flush holds one EQ clause listing both values. */
  lemma ExampleGender(tokens: seq<string>)
    requires tokens == ["", ",gender", "=male", "=female"]
    ensures Finish(Scan(tokens))
         == map[CustomAttributeUserStorageTable := [Some([Clause("gender", EQ, Many(["male", "female"]))])]]
  {
    var comparators := tokens[2..];
    assert tokens == tokens[..1] + [tokens[1]] + comparators;
    assert Scan(tokens[..1]) == Initial by { ScanSnoc([], tokens[0]); assert [] + [tokens[0]] == tokens[..1]; }
    KeyCollectsComparators(tokens[..1], tokens[1], comparators);
    assert tokens[1][1..] == "gender";
    var actions := ActionsOf(comparators);
    assert actions == [FilterAction(Eq, "male"), FilterAction(Eq, "female")];
    CustomAllEquals("gender", actions);
    assert ValuesOf(actions) == ["male", "female"];
    var st := Scan(tokens);
    assert st == ParseState(map[], Some("gender"), actions);
    assert FilterEntry("gender", actions) == Some([Clause("gender", EQ, Many(["male", "female"]))]);
    var entry := FilterEntry("gender", actions);
    assert Finish(st) == map[][CustomAttributeUserStorageTable := [] + [entry]];
    assert [] + [entry] == [entry];
    assert map[][CustomAttributeUserStorageTable := [entry]] == map[CustomAttributeUserStorageTable := [entry]];
  }

  /** The `account_balance` part of the worked example: flushing `>10`
      under `account_balance` adds one GT clause under the transfer-account
      table. */
  lemma ExampleBalance(gender: Filters, actions: seq<FilterAction>)
    requires gender == map[CustomAttributeUserStorageTable := [Some([Clause("gender", EQ, Many(["male", "female"]))])]]
    requires actions == [FilterAction(Gt, "10")]
    ensures Flush(gender, actions, Some("account_balance"))
         == map[CustomAttributeUserStorageTable := [Some([Clause("gender", EQ, Many(["male", "female"]))])],
                TransferAccountTable := [Some([Clause("account_balance", GT, Converted("10"))])]]
  {
    var entry := FilterEntry("account_balance", actions);
    assert entry == RangeClauses("account_balance", actions);
    assert !exists j :: 0 <= j < |actions| && actions[j].comparator == Eq;
    assert entry.Some? && |entry.value| == 1;
    assert entry.value[0] == Clause("account_balance", StrictOp(Gt), Converted("10"));
    assert entry.value == [entry.value[0]];
    assert TableEntries(gender, TransferAccountTable) == [];
    assert Flush(gender, actions, Some("account_balance")) == gender[TransferAccountTable := [] + [entry]];
    assert [] + [entry] == [entry];
  }

  /** The worked example `%,gender%=male%=female%,account_balance%>10`, written
      as the join of its tokens, decodes to one EQ clause listing both genders
      under the custom-attribute table and one GT clause under the
      transfer-account table. */
  lemma DecodeExample(tokens: seq<string>)
    requires tokens == ["", ",gender", "=male", "=female", ",account_balance", ">10"]
    ensures Decode(Join(tokens, '%'))
         == map[CustomAttributeUserStorageTable := [Some([Clause("gender", EQ, Many(["male", "female"]))])],
                TransferAccountTable := [Some([Clause("account_balance", GT, Converted("10"))])]]
  {
    assert forall j :: 0 <= j < |tokens| ==> '%' !in tokens[j];
    JoinSplit(tokens, '%');
    var head := tokens[..4];
    ExampleGender(head);
    assert tokens == head + [tokens[4]] + tokens[5..];
    KeyCollectsComparators(head, tokens[4], tokens[5..]);
    assert tokens[4][1..] == "account_balance";
    var actions := ActionsOf(tokens[5..]);
    assert actions == [FilterAction(Gt, "10")];
    ExampleBalance(Finish(Scan(head)), actions);
  }
}
