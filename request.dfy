/** The request the command sends: the language-pair check, the `forceLang` flag and
    the lookup URL, filled in from the `URL` template with Ruby's `String#%`.
    `URI.encode_www_form_component` is not modelled: it is passed in as `encode`. */
module Request {

  datatype Option<+T> = None | Some(value: T)

  /** An argument of `String#%`. */
  datatype FormatArg = Str(s: string) | Int(i: int)

  /** The decimal digits of `n`, most significant first, with no leading zero. */
  function Digits(n: nat): (ds: string)
    ensures |ds| >= 1
    ensures forall k :: 0 <= k < |ds| ==> '0' <= ds[k] <= '9'
    ensures ds[0] == '0' ==> n == 0
  {
    if n < 10 then ['0' + n as char] else Digits(n / 10) + ['0' + (n % 10) as char]
  }

  /** The value of a string of decimal digits. */
  function DigitsValue(ds: string): nat
    requires forall k :: 0 <= k < |ds| ==> '0' <= ds[k] <= '9'
  {
    if ds == [] then 0 else 10 * DigitsValue(ds[..|ds| - 1]) + (ds[|ds| - 1] - '0') as nat
  }

  /** The digits read back give the number they were written from. */
  lemma {:induction false} DigitsRoundTrip(n: nat)
    ensures DigitsValue(Digits(n)) == n
  {
    var ds := Digits(n);
    if n >= 10 {
      DigitsRoundTrip(n / 10);
      assert ds[..|ds| - 1] == Digits(n / 10);
    }
  }

  /** `Integer#to_s`, which `%d` and `%s` use for an integer argument: a minus sign
      exactly for a negative number, then the digits of its magnitude. */
  function Decimal(i: int): (r: string)
    ensures |r| >= 1 && (r[0] == '-' <==> i < 0)
    ensures i < 0 ==> |r| >= 2 && r[1] != '0'
    ensures i >= 0 && r[0] == '0' ==> i == 0
  {
    if i < 0 then "-" + Digits(-i) else Digits(i)
  }

  /** After the sign, `Integer#to_s` writes only digits, and they read back as the
      magnitude of the number. */
  lemma DecimalRoundTrip(i: int)
    ensures var r := Decimal(i);
            var ds := if i < 0 then r[1..] else r;
            (forall k :: 0 <= k < |ds| ==> '0' <= ds[k] <= '9')
            && DigitsValue(ds) == if i < 0 then -i else i
  {
    var n := if i < 0 then -i else i;
    DigitsRoundTrip(n);
    assert (if i < 0 then Decimal(i)[1..] else Decimal(i)) == Digits(n);
  }

  /** `String#%` for the directives `%s`, `%d` and `%%`. It yields `None` where Ruby
      raises `ArgumentError` (too few arguments, a lone `%` at the end), and also for
      what this model does not cover: any other directive or flag (`%x`, `%5s`, `%-s`)
      and `%d` with a string argument, which Ruby would convert to an integer.
      Extra arguments are ignored, as Ruby does outside debug mode. */
  function Format(template: string, args: seq<FormatArg>): Option<string>
    decreases |template|
  {
    if template == [] then Some([])
    else if template[0] != '%' then
      match Format(template[1..], args)
      case Some(rest) => Some([template[0]] + rest)
      case None => None
    else if |template| < 2 then None
    else if template[1] == '%' then
      match Format(template[2..], args)
      case Some(rest) => Some("%" + rest)
      case None => None
    else if (template[1] == 's' || template[1] == 'd') && args != [] then
      var text :=
        match args[0]
        case Str(s) => if template[1] == 's' then Some(s) else None
        case Int(i) => Some(Decimal(i));
      match (text, Format(template[2..], args[1..]))
      case (Some(t), Some(rest)) => Some(t + rest)
      case _ => None
    else None
  }

  /** The fixed part of every lookup URL, before the source language. */
  const Site: string := "https://slovnik.seznam.cz/"

  /** `URL`, that is "https://slovnik.seznam.cz/%s-%s/?q=%s&forceLang=%d", written as
      its literal pieces and directives in order. */
  const UrlTemplate: string := Site + ("%s" + ("-" + ("%s" + ("/?q=" + ("%s" + ("&forceLang=" + "%d"))))))

  /** The template is the `URL` constant of the command, character for character. */
  lemma UrlTemplateText()
    ensures UrlTemplate == "https://slovnik.seznam.cz/%s-%s/?q=%s&forceLang=%d"
  {
  }

  /** `force_lang = source == "cz" ? 1 : 0` */
  function ForceLang(source: string): (flag: nat)
    ensures flag == 1 <==> source == "cz"
    ensures flag <= 1
  {
    if source == "cz" then 1 else 0
  }

  /** The lookup URL, or `None` when neither language is `"cz"` (the command then
      prints its diagnostic and exits before any URL exists). Every other pair gives
      the template with source, target, encoded query and flag substituted in order. */
  function LookupUrl(source: string, target: string, query: string, encode: string -> string): (r: Option<string>)
    ensures r.None? <==> source != "cz" && target != "cz"
    ensures r.Some? ==> r.value == Site + source + "-" + target + "/?q=" + encode(query)
                                   + "&forceLang=" + Decimal(ForceLang(source))
  {
    if "cz" !in [source, target] then None
    else
      UrlSubstitution(source, target, encode(query), ForceLang(source));
      Format(UrlTemplate, [Str(source), Str(target), Str(encode(query)), Int(ForceLang(source))])
  }

  // ---------------------------------------------------------------------------
  // Reading a URL back

  /** The values a lookup URL carries. */
  datatype Lookup = Lookup(source: string, target: string, encodedQuery: string, forceLang: nat)

  /** Splits a lookup URL whose language codes are two letters long back into its parts. */
  function ParseUrl(url: string): Option<Lookup> {
    if |url| < |Site| + 21 || url[..|Site|] != Site then None
    else
      var rest := url[|Site|..];
      var n := |rest|;
      if rest[2] != '-' || rest[5..9] != "/?q=" || rest[n - 12..n - 1] != "&forceLang="
         || (rest[n - 1] != '0' && rest[n - 1] != '1')
      then None
      else Some(Lookup(rest[..2], rest[3..5], rest[9..n - 12], if rest[n - 1] == '1' then 1 else 0))
  }

  /** Every URL the command can build, with the language codes the command offers,
      reads back as the languages, the encoded query and the flag it was built from. */
  lemma UrlRoundTrip(source: string, target: string, query: string, encode: string -> string)
    requires source in {"cz", "en"} && target in {"cz", "en"}
    requires source == "cz" || target == "cz"
    ensures LookupUrl(source, target, query, encode).Some?
    ensures ParseUrl(LookupUrl(source, target, query, encode).value)
            == Some(Lookup(source, target, encode(query), ForceLang(source)))
  {
    var d := if source == "cz" then '1' else '0';
    assert Decimal(ForceLang(source)) == [d];
    ParseBuiltUrl(source, target, encode(query), d);
  }

  lemma ParseBuiltUrl(source: string, target: string, q: string, d: char)
    requires |source| == 2 && |target| == 2
    requires d == '0' || d == '1'
    ensures ParseUrl(Site + source + "-" + target + "/?q=" + q + "&forceLang=" + [d])
            == Some(Lookup(source, target, q, if d == '1' then 1 else 0))
  {
    var rest := source + "-" + target + "/?q=" + q + "&forceLang=" + [d];
    var url := Site + source + "-" + target + "/?q=" + q + "&forceLang=" + [d];
    assert url == Site + rest;
    assert url[..|Site|] == Site && url[|Site|..] == rest;
    var n := |rest|;
    assert n == 21 + |q|;
    assert rest[..2] == source;
    assert rest[2] == '-';
    assert rest[3..5] == target;
    assert rest[5..9] == "/?q=";
    assert rest[9..n - 12] == q;
    assert rest[n - 12..n - 1] == "&forceLang=";
    assert rest[n - 1] == d;
  }

  // ---------------------------------------------------------------------------
  // How `Format` reads the URL template

  lemma {:induction false} FormatLiteral(lit: string, tail: string, args: seq<FormatArg>)
    requires forall k :: 0 <= k < |lit| ==> lit[k] != '%'
    ensures Format(lit + tail, args) ==
              match Format(tail, args)
              case Some(rest) => Some(lit + rest)
              case None => None
    decreases |lit|
  {
    if lit != [] {
      assert (lit + tail)[1..] == lit[1..] + tail;
      FormatLiteral(lit[1..], tail, args);
      if Format(tail, args).Some? {
        assert [lit[0]] + (lit[1..] + Format(tail, args).value) == lit + Format(tail, args).value;
      }
    } else {
      assert lit + tail == tail;
      if Format(tail, args).Some? {
        assert lit + Format(tail, args).value == Format(tail, args).value;
      }
    }
  }

  lemma FormatString(s: string, tail: string, args: seq<FormatArg>)
    ensures Format("%s" + tail, [Str(s)] + args) ==
              match Format(tail, args)
              case Some(rest) => Some(s + rest)
              case None => None
  {
    var t := "%s" + tail;
    assert t[0] == '%' && t[1] == 's' && t[2..] == tail;
    assert ([Str(s)] + args)[1..] == args;
  }

  lemma FormatInteger(i: int, tail: string, args: seq<FormatArg>)
    ensures Format("%d" + tail, [Int(i)] + args) ==
              match Format(tail, args)
              case Some(rest) => Some(Decimal(i) + rest)
              case None => None
  {
    var t := "%d" + tail;
    assert t[0] == '%' && t[1] == 'd' && t[2..] == tail;
    assert ([Int(i)] + args)[1..] == args;
  }

  /** Filling the URL template substitutes the four arguments in order and never fails. */
  lemma UrlSubstitution(source: string, target: string, q: string, flag: int)
    ensures Format(UrlTemplate, [Str(source), Str(target), Str(q), Int(flag)])
            == Some(Site + source + "-" + target + "/?q=" + q + "&forceLang=" + Decimal(flag))
  {
    var t1 := "-" + ("%s" + ("/?q=" + ("%s" + ("&forceLang=" + "%d"))));
    var a1 := [Str(target), Str(q), Int(flag)];
    var d := Decimal(flag);
    TargetOnwardSubstitution(target, q, flag);
    FormatString(source, t1, a1);
    assert [Str(source)] + a1 == [Str(source), Str(target), Str(q), Int(flag)];
    FormatLiteral(Site, "%s" + t1, [Str(source)] + a1);
    Reassociate(source, target, q, d);
  }

  lemma TargetOnwardSubstitution(target: string, q: string, flag: int)
    ensures Format("-" + ("%s" + ("/?q=" + ("%s" + ("&forceLang=" + "%d")))), [Str(target), Str(q), Int(flag)])
            == Some("-" + (target + ("/?q=" + (q + ("&forceLang=" + Decimal(flag))))))
  {
    var t2 := "%s" + ("/?q=" + ("%s" + ("&forceLang=" + "%d")));
    var a1 := [Str(target), Str(q), Int(flag)];
    QueryAndFlagSubstitution(q, flag);
    FormatString(target, "/?q=" + ("%s" + ("&forceLang=" + "%d")), [Str(q), Int(flag)]);
    assert [Str(target)] + [Str(q), Int(flag)] == a1;
    FormatLiteral("-", t2, a1);
  }

  lemma QueryAndFlagSubstitution(q: string, flag: int)
    ensures Format("/?q=" + ("%s" + ("&forceLang=" + "%d")), [Str(q), Int(flag)])
            == Some("/?q=" + (q + ("&forceLang=" + Decimal(flag))))
  {
    assert Format("%d", [Int(flag)]) == Some(Decimal(flag)) by {
      FormatInteger(flag, [], []);
      assert "%d" == "%d" + [];
      assert [Int(flag)] + [] == [Int(flag)];
      assert Decimal(flag) + [] == Decimal(flag);
    }
    FormatLiteral("&forceLang=", "%d", [Int(flag)]);
    FormatString(q, "&forceLang=" + "%d", [Int(flag)]);
    assert [Str(q)] + [Int(flag)] == [Str(q), Int(flag)];
    FormatLiteral("/?q=", "%s" + ("&forceLang=" + "%d"), [Str(q), Int(flag)]);
  }

  lemma Reassociate(source: string, target: string, q: string, d: string)
    ensures Site + (source + ("-" + (target + ("/?q=" + (q + ("&forceLang=" + d))))))
            == Site + source + "-" + target + "/?q=" + q + "&forceLang=" + d
  {
  }
}
