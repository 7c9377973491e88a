/** Classification of the arguments that follow the feed name on the command
    line: which listing the feed request asks for (hot, new or top, and for top
    a time window) and whether the short glyph palette is used. */
module Arguments {

  datatype Option<T> = None | Some(value: T)

  /** Category flags recognised after the feed name. */
  const AllowedFlagParams: seq<string> := ["-new", "-hot", "-top"]

  /** Time-window words recognised after the feed name. */
  const AllowedFlagValues: seq<string> := ["hour", "day", "week", "month", "year", "all"]

  /** The flag that selects the short palette. */
  const SimpleFlag: string := "-simple"

  /** The window a `-top` listing uses when no recognised window word was given. */
  const DefaultPeriod: string := "day"

  /** What the scan of the trailing arguments records. */
  datatype Parsed = Parsed(flagParam: Option<string>, flagValue: Option<string>, useSimple: bool)

  const NothingSeen: Parsed := Parsed(None, None, false)

  /** True when some argument of `data` is one of `allowed`. */
  ghost predicate Mentions(data: seq<string>, allowed: seq<string>)
  {
    exists i :: 0 <= i < |data| && data[i] in allowed
  }

  /** Position `i` holds the last argument of `data` that is one of `allowed`. */
  ghost predicate IsLastOf(data: seq<string>, allowed: seq<string>, i: int)
  {
    && 0 <= i < |data|
    && data[i] in allowed
    && forall j :: i < j < |data| ==> data[j] !in allowed
  }

  /** `found` is the last argument of `data` drawn from `allowed`, or None when
      there is no such argument. */
  ghost predicate LastOf(data: seq<string>, allowed: seq<string>, found: Option<string>)
  {
    match found
    case None => !Mentions(data, allowed)
    case Some(v) => exists i :: IsLastOf(data, allowed, i) && data[i] == v
  }

  /** The effect of one argument on what the scan has recorded so far. */
  function Classify(seen: Parsed, parameter: string): Parsed
  {
    var withParam := if parameter in AllowedFlagParams then seen.(flagParam := Some(parameter)) else seen;
    var withValue := if parameter in AllowedFlagValues then withParam.(flagValue := Some(parameter)) else withParam;
    if parameter == SimpleFlag then withValue.(useSimple := true) else withValue
  }

  /** Scans the arguments left to right; a later recognised argument replaces
      an earlier one of the same kind. */
  function FormatArguments(data: seq<string>): (p: Parsed)
    ensures LastOf(data, AllowedFlagParams, p.flagParam)
    ensures LastOf(data, AllowedFlagValues, p.flagValue)
    ensures p.useSimple <==> SimpleFlag in data
  {
    if |data| == 0 then NothingSeen
    else
      var prefix := data[..|data| - 1];
      var seen := FormatArguments(prefix);
      ClassifyExtendsLast(prefix, data[|data| - 1], AllowedFlagParams, seen.flagParam);
      ClassifyExtendsLast(prefix, data[|data| - 1], AllowedFlagValues, seen.flagValue);
      assert data == prefix + [data[|data| - 1]];
      Classify(seen, data[|data| - 1])
  }

  /** Appending one argument either makes it the new last match or leaves the
      last match unchanged. */
  lemma ClassifyExtendsLast(prefix: seq<string>, x: string, allowed: seq<string>, found: Option<string>)
    requires LastOf(prefix, allowed, found)
    ensures LastOf(prefix + [x], allowed, if x in allowed then Some(x) else found)
  {
    var data := prefix + [x];
    if x in allowed {
      assert IsLastOf(data, allowed, |prefix|);
    } else {
      match found
      case None =>
        forall i | 0 <= i < |data|
          ensures data[i] !in allowed
        {
          if i < |prefix| {
            assert data[i] == prefix[i];
          }
        }
      case Some(v) =>
        var i :| IsLastOf(prefix, allowed, i) && prefix[i] == v;
        assert IsLastOf(data, allowed, i);
    }
  }

  /** Which part of the listing `Flag` is asked for. */
  datatype ReturnParam = Cat | Time

  /** The category itself, or the query suffix `?t=<time>` (empty without a
      time). */
  function Format(returnParam: ReturnParam, cat: string, time: Option<string>): string
  {
    match returnParam
    case Cat => cat
    case Time => if time.Some? && time.value != "" then "?t=" + time.value else ""
  }

  /** The listing category and time suffix selected by the recorded arguments. */
  function Flag(args: Parsed, returnParam: ReturnParam): (r: string)
    ensures returnParam == Cat ==> r in ["hot", "new", "top"]
    ensures returnParam == Cat ==> (r == "new" <==> args.flagParam == Some("-new"))
    ensures returnParam == Cat ==> (r == "top" <==> args.flagParam == Some("-top"))
    ensures returnParam == Time ==> (r != "" <==> args.flagParam == Some("-top"))
    ensures returnParam == Time && r != "" ==>
              exists v :: v in AllowedFlagValues && r == "?t=" + v
    ensures returnParam == Time && args.flagParam == Some("-top") ==>
              (if args.flagValue.Some? && args.flagValue.value in AllowedFlagValues
               then r == "?t=" + args.flagValue.value
               else r == "?t=" + DefaultPeriod)
  {
    match args.flagParam
    case None => Format(returnParam, "hot", None)
    case Some(parameter) =>
      if parameter == "" || parameter !in AllowedFlagParams then Format(returnParam, "hot", None)
      else if parameter == "-new" then Format(returnParam, "new", None)
      else if parameter == "-top" then
        if args.flagValue.Some? && args.flagValue.value != "" && args.flagValue.value in AllowedFlagValues
        then Format(returnParam, "top", args.flagValue)
        else Format(returnParam, "top", Some(DefaultPeriod))
      else
        // the remaining allowed flag is "-hot"
        Format(returnParam, "hot", None)
  }

  /** Category and time suffix of a whole command line tail: `top` exactly when
      the last category flag is `-top`, `new` exactly when it is `-new`, `hot`
      otherwise (no category flag at all included); the suffix is present only
      for `top`, and names the last window word given anywhere, or `day`. */
  lemma {:induction false} ListingOfArguments(data: seq<string>)
    ensures var cat := Flag(FormatArguments(data), Cat);
            && (cat == "top" <==> exists i :: IsLastOf(data, AllowedFlagParams, i) && data[i] == "-top")
            && (cat == "new" <==> exists i :: IsLastOf(data, AllowedFlagParams, i) && data[i] == "-new")
            && (!Mentions(data, AllowedFlagParams) ==> cat == "hot")
    ensures var time := Flag(FormatArguments(data), Time);
            && (time != "" <==> Flag(FormatArguments(data), Cat) == "top")
            && (time != "" && !Mentions(data, AllowedFlagValues) ==> time == "?t=day")
            && (time != "" ==> forall i :: IsLastOf(data, AllowedFlagValues, i) ==> time == "?t=" + data[i])
  {
    var p := FormatArguments(data);
    forall i, k | IsLastOf(data, AllowedFlagParams, i) && IsLastOf(data, AllowedFlagParams, k)
      ensures i == k
    {
    }
    forall i, k | IsLastOf(data, AllowedFlagValues, i) && IsLastOf(data, AllowedFlagValues, k)
      ensures i == k
    {
    }
  }

  /** An argument that is neither a category flag, a window word nor
      `-simple` (an unknown flag such as `-foo`) changes nothing, wherever it
      stands. */
  lemma {:induction false} IgnoresUnrecognised(before: seq<string>, x: string, after: seq<string>)
    requires x !in AllowedFlagParams && x !in AllowedFlagValues && x != SimpleFlag
    ensures FormatArguments(before + [x] + after) == FormatArguments(before + after)
    decreases |after|
  {
    var whole := before + [x] + after;
    if |after| == 0 {
      calc {
        FormatArguments(whole);
        { ScanLast(whole); assert whole[..|whole| - 1] == before; }
        Classify(FormatArguments(before), x);
        FormatArguments(before);
        { assert before + after == before; }
        FormatArguments(before + after);
      }
    } else {
      var last := after[|after| - 1];
      var rest := after[..|after| - 1];
      var without := before + after;
      calc {
        FormatArguments(whole);
        { ScanLast(whole); assert whole[..|whole| - 1] == before + [x] + rest; }
        Classify(FormatArguments(before + [x] + rest), last);
        { IgnoresUnrecognised(before, x, rest); }
        Classify(FormatArguments(before + rest), last);
        { ScanLast(without); assert without[..|without| - 1] == before + rest; }
        FormatArguments(without);
      }
    }
  }

  /** The scan of a non-empty list is the scan of all but its last argument,
      followed by that argument's effect. */
  lemma ScanLast(data: seq<string>)
    requires |data| > 0
    ensures FormatArguments(data) == Classify(FormatArguments(data[..|data| - 1]), data[|data| - 1])
  {
  }

  /** The arguments after the program path, the script path and the feed name
      (JavaScript's `slice(3)`, which yields nothing for a shorter list). */
  function Trailing(argv: seq<string>): (rest: seq<string>)
    ensures |argv| <= 3 ==> rest == []
    ensures |argv| > 3 ==> |rest| == |argv| - 3 && forall i :: 0 <= i < |rest| ==> rest[i] == argv[i + 3]
  {
    if |argv| <= 3 then [] else argv[3..]
  }
}
