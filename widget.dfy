/**
 * The `Pet_of_the_Day_Widget` class: its save-time sanitiser `update`, the
 * render guard, country classification and iframe address of `widget`, and
 * the values `form` pre-fills. A widget instance is a PHP array, modelled as a
 * map from keys to strings; a key that is not set is absent from the map.
 *
 * The Host helpers the class calls (`strip_tags`, `esc_html`,
 * `esc_attr`, `__`) are not part of this model: they are parameters, and
 * every property that needs something of them says so in a `requires`.
 */
module PetOfTheDayWidget {
  import opened Wrappers
  import opened Preg
  import opened PostalCode

  type Instance = map<string, string>

  const TitleKey: string := "title"
  const PostalCodeKey: string := "postal_code"

  /** PHP's `strip_tags` and the WordPress helpers `esc_html`, `esc_attr` and `__`, left uninterpreted. */
  datatype Host = Host(
    stripTags: string -> string,
    escHtml: string -> string,
    escAttr: string -> string,
    translate: string -> string)

  /** `$instance[$key]`, or nothing when the key is not set. */
  function Get(inst: Instance, key: string): (v: Option<string>)
    ensures v.Some? <==> key in inst
    ensures v.Some? ==> v.value == inst[key]
  {
    if key in inst then Some(inst[key]) else None
  }

  /** PHP's `empty()` on an array element holding a string: unset, `""` or `"0"`. */
  predicate PhpEmpty(v: Option<string>)
  {
    v.None? || v.value == "" || v.value == "0"
  }

  // ---------------------------------------------------------------------------
  // update: the save-time sanitiser
  // ---------------------------------------------------------------------------

  /**
   * `update($new_instance, $old_instance)`. A fresh array is built from the
   * submitted values; the previously saved values play no part.
   */
  function Update(host: Host, newInstance: Instance, oldInstance: Instance): (r: Instance)
    ensures r.Keys == {TitleKey} + (if PhpEmpty(Get(newInstance, PostalCodeKey)) then {} else {PostalCodeKey})
    ensures r[TitleKey] == if PhpEmpty(Get(newInstance, TitleKey)) then "" else host.stripTags(newInstance[TitleKey])
    ensures PostalCodeKey in r ==>
      if IsAcceptedPostalCode(newInstance[PostalCodeKey]) then r[PostalCodeKey] == newInstance[PostalCodeKey]
      else r[PostalCodeKey] == ""
  {
    var title := if PhpEmpty(Get(newInstance, TitleKey)) then "" else host.stripTags(newInstance[TitleKey]);
    var instance := map[TitleKey := title];
    if PhpEmpty(Get(newInstance, PostalCodeKey)) then instance
    else
      var code := newInstance[PostalCodeKey];
      instance[PostalCodeKey := if IsAcceptedPostalCode(code) then code else ""]
  }

  /**
   * What a sanitised instance looks like: a title, possibly a postal code and
   * nothing else, and a postal code that is either `""` or matches exactly one
   * of the two patterns.
   */
  predicate Sanitized(inst: Instance)
  {
    && inst.Keys <= {TitleKey, PostalCodeKey}
    && TitleKey in inst
    && (PostalCodeKey in inst ==>
         inst[PostalCodeKey] == "" || MatchesCanadian(inst[PostalCodeKey]) != MatchesZip(inst[PostalCodeKey]))
  }

  lemma UpdateSanitizes(host: Host, newInstance: Instance, oldInstance: Instance)
    ensures Sanitized(Update(host, newInstance, oldInstance))
  {
    var r := Update(host, newInstance, oldInstance);
    if PostalCodeKey in r { PatternsDisjoint(r[PostalCodeKey]); }
  }

  /**
   * The three outcomes for the postal code: it is left unset exactly when the
   * submitted one is PHP-empty, stored verbatim exactly when it matches a
   * pattern, and replaced by `""` exactly when it is non-empty and matches neither.
   */
  lemma PostalCodeOutcome(host: Host, newInstance: Instance, oldInstance: Instance)
    ensures var r := Update(host, newInstance, oldInstance);
      && (Get(r, PostalCodeKey).None? <==> PhpEmpty(Get(newInstance, PostalCodeKey)))
      && (Get(r, PostalCodeKey).Some? && Get(r, PostalCodeKey) == Get(newInstance, PostalCodeKey) <==>
            PostalCodeKey in newInstance && IsAcceptedPostalCode(newInstance[PostalCodeKey]))
      && (Get(r, PostalCodeKey) == Some("") <==>
            !PhpEmpty(Get(newInstance, PostalCodeKey)) && !IsAcceptedPostalCode(newInstance[PostalCodeKey]))
  {
    if PostalCodeKey in newInstance && IsAcceptedPostalCode(newInstance[PostalCodeKey]) {
      AcceptedLength(newInstance[PostalCodeKey]);
    }
  }

  /** The previously saved values never influence the result. */
  lemma UpdateIgnoresOld(host: Host, newInstance: Instance, old1: Instance, old2: Instance)
    ensures Update(host, newInstance, old1) == Update(host, newInstance, old2)
  {
  }

  /** Accepted codes keep their case and their spacing: `K1A0B1` and `k1a 0b1` are both stored as given. */
  lemma AcceptedStoredVerbatim(host: Host, oldInstance: Instance)
    ensures Update(host, map[PostalCodeKey := "K1A0B1"], oldInstance)[PostalCodeKey] == "K1A0B1"
    ensures Update(host, map[PostalCodeKey := "k1a 0b1"], oldInstance)[PostalCodeKey] == "k1a 0b1"
    ensures Update(host, map[TitleKey := "My Pets", PostalCodeKey := "ABCDE"], oldInstance)[PostalCodeKey] == ""
    ensures PostalCodeKey !in Update(host, map[PostalCodeKey := "0"], oldInstance)
  {
    Examples();
  }

  /** strip_tags removes everything it removes in one pass. */
  ghost predicate StripIdempotent(stripTags: string -> string)
  {
    forall s :: stripTags(stripTags(s)) == stripTags(s)
  }

  /**
   * Saving what `update` returned once more: an accepted code stays, a `""`
   * code disappears, and a title that `strip_tags` turned into `"0"` becomes
   * `""`; every other title stays.
   */
  lemma Resave(host: Host, newInstance: Instance, old1: Instance, old2: Instance)
    requires StripIdempotent(host.stripTags)
    ensures var r1 := Update(host, newInstance, old1);
      var r2 := Update(host, r1, old2);
      && Get(r2, PostalCodeKey) == (if Get(r1, PostalCodeKey) == Some("") then None else Get(r1, PostalCodeKey))
      && r2[TitleKey] == (if r1[TitleKey] == "0" then "" else r1[TitleKey])
  {
    var r1 := Update(host, newInstance, old1);
    if PostalCodeKey in r1 && r1[PostalCodeKey] != "" {
      AcceptedLength(r1[PostalCodeKey]);
    }
    if !PhpEmpty(Get(r1, TitleKey)) {
      assert r1[TitleKey] == host.stripTags(newInstance[TitleKey]);
      assert host.stripTags(host.stripTags(newInstance[TitleKey])) == host.stripTags(newInstance[TitleKey]);
    }
  }

  /** A saved instance with a real postal code and a title other than `"0"` is a fixed point of `update`. */
  lemma UpdateFixedPoint(host: Host, newInstance: Instance, old1: Instance, old2: Instance)
    requires StripIdempotent(host.stripTags)
    requires var r1 := Update(host, newInstance, old1);
      r1[TitleKey] != "0" && Get(r1, PostalCodeKey) != Some("")
    ensures var r1 := Update(host, newInstance, old1);
      Update(host, r1, old2) == r1
  {
    var r1 := Update(host, newInstance, old1);
    var r2 := Update(host, r1, old2);
    Resave(host, newInstance, old1, old2);
    assert r2.Keys == r1.Keys by {
      if PostalCodeKey in r1 { AcceptedLength(r1[PostalCodeKey]); }
    }
  }

  /** `update` settles after two saves: a third changes nothing. */
  lemma UpdateSettles(host: Host, newInstance: Instance, oldInstance: Instance)
    requires StripIdempotent(host.stripTags)
    ensures var r2 := Update(host, Update(host, newInstance, oldInstance), oldInstance);
      Update(host, r2, oldInstance) == r2
  {
    var r1 := Update(host, newInstance, oldInstance);
    Resave(host, newInstance, oldInstance, oldInstance);
    UpdateFixedPoint(host, r1, oldInstance, oldInstance);
  }

  // ---------------------------------------------------------------------------
  // widget: render guard, country classification and iframe address
  // ---------------------------------------------------------------------------

  /** What `widget` embeds when it emits anything: the country code and the iframe's `src`. */
  datatype Embed = Embed(countryCode: string, src: string)

  const SrcPrefix: string := "https://searchtools.adoptapet.com/public/searchtools/display/pet-of-the-day?postal_code="
  const CountryParam: string := "&country_code="
  const SrcSuffix: string := "&background=tan&size=tall"

  /** The country code is `"CA"` for a code of Canadian form and `"US"` for anything else. */
  function CountryCode(postalCode: string): (cc: string)
    ensures cc == "CA" || cc == "US"
    ensures cc == "CA" <==> MatchesCanadian(postalCode)
  {
    if MatchesCanadian(postalCode) then "CA" else "US"
  }

  /**
   * The iframe's `src` attribute as `widget` concatenates it. Whenever the
   * escaped values hold no `&`, both can be read back from it.
   */
  function IframeSrc(host: Host, postalCode: string, countryCode: string): (src: string)
    ensures '&' !in host.escAttr(postalCode) && '&' !in host.escAttr(countryCode) ==>
      ParseSrc(src) == Some((host.escAttr(postalCode), host.escAttr(countryCode)))
  {
    var a, b := host.escAttr(postalCode), host.escAttr(countryCode);
    assert '&' !in a && '&' !in b ==> ParseSrc(SrcPrefix + a + CountryParam + b + SrcSuffix) == Some((a, b)) by {
      if '&' !in a && '&' !in b { SrcRoundTrip(a, b); }
    }
    SrcPrefix + a + CountryParam + b + SrcSuffix
  }

  /**
   * `widget($args, $instance)`: nothing at all when the title or the postal
   * code is PHP-empty; otherwise the code is HTML-escaped, classified, and
   * placed in the iframe address.
   */
  function Widget(host: Host, inst: Instance): (r: Option<Embed>)
    ensures r.None? <==> PhpEmpty(Get(inst, TitleKey)) || PhpEmpty(Get(inst, PostalCodeKey))
    ensures r.Some? ==> r.value.countryCode == "CA" || r.value.countryCode == "US"
    ensures r.Some? ==> (r.value.countryCode == "CA" <==> MatchesCanadian(host.escHtml(inst[PostalCodeKey])))
    ensures r.Some? && '&' !in host.escAttr(host.escHtml(inst[PostalCodeKey])) && '&' !in host.escAttr(r.value.countryCode) ==>
      ParseSrc(r.value.src) == Some((host.escAttr(host.escHtml(inst[PostalCodeKey])), host.escAttr(r.value.countryCode)))
  {
    if PhpEmpty(Get(inst, TitleKey)) || PhpEmpty(Get(inst, PostalCodeKey)) then None
    else
      var postalCode := host.escHtml(inst[PostalCodeKey]);
      var countryCode := CountryCode(postalCode);
      Some(Embed(countryCode, IframeSrc(host, postalCode, countryCode)))
  }

  /** A stored code that matches neither pattern is still classified `"US"`: there is no ZIP re-check. */
  lemma MalformedCodeClassifiedUS(host: Host)
    requires host.escHtml("ABCDE") == "ABCDE"
    ensures Widget(host, map[TitleKey := "Pets", PostalCodeKey := "ABCDE"]).value.countryCode == "US"
  {
    Examples();
  }

  // ---------------------------------------------------------------------------
  // Reading the iframe address back
  // ---------------------------------------------------------------------------

  /** The position of the first `c` in `s`, or `|s|` when there is none. */
  function IndexOf(s: string, c: char): (i: nat)
    ensures i <= |s|
    ensures forall k :: 0 <= k < i ==> s[k] != c
    ensures i < |s| ==> s[i] == c
  {
    if s == [] then 0
    else if s[0] == c then 0
    else 1 + IndexOf(s[1..], c)
  }

  /**
   * Reads the two values back out of `prefix + a + param + b + suffix`: the
   * first value ends at the first `&` after the prefix, the second at the
   * first `&` after `param`, and what follows it must be `suffix`.
   */
  function ReadValues(src: string, prefix: string, param: string, suffix: string): (r: Option<(string, string)>)
  {
    if !(prefix <= src) then None
    else
      var rest := src[|prefix|..];
      var i := IndexOf(rest, '&');
      var tail := rest[i..];
      if !(param <= tail) then None
      else
        var tail2 := tail[|param|..];
        var j := IndexOf(tail2, '&');
        if tail2[j..] != suffix then None
        else Some((rest[..i], tail2[..j]))
  }

  /** The postal code and country code of an address of the widget's shape. */
  function ParseSrc(src: string): (r: Option<(string, string)>)
  {
    ReadValues(src, SrcPrefix, CountryParam, SrcSuffix)
  }

  lemma SplitAt(s: string, n: nat)
    requires n <= |s|
    ensures s == s[..n] + s[n..]
  {
  }

  lemma Regroup(a: string, b: string, c: string, d: string, e: string)
    ensures a + (b + (c + (d + e))) == a + b + c + d + e
  {
  }

  lemma NoneBefore(s: string, n: nat, c: char)
    requires n <= |s|
    requires forall k :: 0 <= k < n ==> s[k] != c
    ensures c !in s[..n]
  {
    assert forall k :: 0 <= k < n ==> s[..n][k] == s[k];
  }

  /** What `ReadValues` finds is sound: the address is exactly its parts, and neither value holds `&`. */
  lemma ReadValuesSound(src: string, prefix: string, param: string, suffix: string)
    ensures var r := ReadValues(src, prefix, param, suffix);
      r.Some? ==> '&' !in r.value.0 && '&' !in r.value.1
    ensures var r := ReadValues(src, prefix, param, suffix);
      r.Some? ==> src == prefix + r.value.0 + param + r.value.1 + suffix
  {
    if ReadValues(src, prefix, param, suffix).Some? {
      var rest := src[|prefix|..];
      var i := IndexOf(rest, '&');
      var tail := rest[i..];
      var tail2 := tail[|param|..];
      var j := IndexOf(tail2, '&');
      assert ReadValues(src, prefix, param, suffix) == Some((rest[..i], tail2[..j]));
      SplitAt(src, |prefix|);
      SplitAt(rest, i);
      SplitAt(tail, |param|);
      SplitAt(tail2, j);
      Regroup(prefix, rest[..i], param, tail2[..j], suffix);
      NoneBefore(rest, i, '&');
      NoneBefore(tail2, j, '&');
    }
  }

  /** Values without `&` are read back unchanged when `param` and `suffix` each start with `&`. */
  lemma ReadValuesRoundTrip(a: string, b: string, prefix: string, param: string, suffix: string)
    requires '&' !in a && '&' !in b
    requires |param| > 0 && param[0] == '&' && |suffix| > 0 && suffix[0] == '&'
    ensures ReadValues(prefix + a + param + b + suffix, prefix, param, suffix) == Some((a, b))
  {
    var src := prefix + a + param + b + suffix;
    var rest := src[|prefix|..];
    assert rest == a + (param + b + suffix);
    var i := IndexOf(rest, '&');
    assert rest[|a|] == '&';
    assert i == |a|;
    var tail := rest[i..];
    assert tail == param + (b + suffix);
    var tail2 := tail[|param|..];
    assert tail2 == b + suffix;
    assert tail2[|b|] == '&';
    assert IndexOf(tail2, '&') == |b|;
  }

  /** What `ParseSrc` reads back is sound: the address is exactly the prefix, the two values and the fixed parameters. */
  lemma ParseSrcSound(src: string)
    ensures var r := ParseSrc(src);
      r.Some? ==> '&' !in r.value.0 && '&' !in r.value.1 &&
                  src == SrcPrefix + r.value.0 + CountryParam + r.value.1 + SrcSuffix
  {
    ReadValuesSound(src, SrcPrefix, CountryParam, SrcSuffix);
  }

  /** Values without `&` are read back unchanged from the address they were placed in. */
  lemma SrcRoundTrip(postalCode: string, countryCode: string)
    requires '&' !in postalCode && '&' !in countryCode
    ensures ParseSrc(SrcPrefix + postalCode + CountryParam + countryCode + SrcSuffix) == Some((postalCode, countryCode))
  {
    ReadValuesRoundTrip(postalCode, countryCode, SrcPrefix, CountryParam, SrcSuffix);
  }

  /** The escaping helper leaves ASCII letters, digits, spaces and newlines alone. */
  ghost predicate KeepsPostalChars(escape: string -> string)
  {
    forall s :: PostalChars(s) ==> escape(s) == s
  }

  lemma NoAmpersand(s: string)
    requires PostalChars(s)
    ensures '&' !in s
  {
  }

  /** The address carries the escaped postal code and the country code, and they can be read back from it. */
  lemma IframeSrcCarriesCodes(host: Host, postalCode: string, countryCode: string)
    requires KeepsPostalChars(host.escAttr)
    requires PostalChars(postalCode)
    requires countryCode == "CA" || countryCode == "US"
    ensures ParseSrc(IframeSrc(host, postalCode, countryCode)) == Some((postalCode, countryCode))
  {
    assert PostalChars(countryCode);
    NoAmpersand(postalCode);
    NoAmpersand(countryCode);
    SrcRoundTrip(postalCode, countryCode);
  }

  // ---------------------------------------------------------------------------
  // Save, then render
  // ---------------------------------------------------------------------------

  /**
   * After a save the widget shows something exactly when the stored title is
   * not PHP-empty and the submitted postal code matched a pattern; an
   * invalid or empty code never reaches the page.
   */
  lemma RenderedAfterSave(host: Host, newInstance: Instance, oldInstance: Instance)
    ensures var r := Update(host, newInstance, oldInstance);
      Widget(host, r).Some? <==>
        !PhpEmpty(Get(r, TitleKey)) && PostalCodeKey in newInstance && IsAcceptedPostalCode(newInstance[PostalCodeKey])
  {
    PostalCodeOutcome(host, newInstance, oldInstance);
  }

  /**
   * A saved, accepted code is classified by the pattern it matched (`"CA"`
   * for a Canadian code, `"US"` for a ZIP code), and the iframe address
   * carries the code and that country code.
   */
  lemma SavedCodeReachesIframe(host: Host, newInstance: Instance, oldInstance: Instance)
    requires KeepsPostalChars(host.escHtml) && KeepsPostalChars(host.escAttr)
    requires PostalCodeKey in newInstance && IsAcceptedPostalCode(newInstance[PostalCodeKey])
    requires !PhpEmpty(Get(Update(host, newInstance, oldInstance), TitleKey))
    ensures var code := newInstance[PostalCodeKey];
      var r := Widget(host, Update(host, newInstance, oldInstance));
      && r.Some?
      && r.value.countryCode == (if MatchesZip(code) then "US" else "CA")
      && ParseSrc(r.value.src) == Some((code, r.value.countryCode))
  {
    var code := newInstance[PostalCodeKey];
    AcceptedLength(code);
    AcceptedChars(code);
    PatternsDisjoint(code);
    assert host.escHtml(code) == code;
    IframeSrcCarriesCodes(host, code, CountryCode(code));
  }

  // ---------------------------------------------------------------------------
  // form: the values the settings form is pre-filled with
  // ---------------------------------------------------------------------------

  const DefaultTitle: string := "A Local Adoptable Pet"

  /** The `value` attributes of the two inputs of `form`. */
  datatype FormValues = FormValues(title: string, postalCode: string)

  /**
   * `form($instance)`: the saved title when the key is set (even to `""`),
   * otherwise the translated default; the saved code HTML-escaped, or `""`.
   */
  function Form(host: Host, inst: Instance): (f: FormValues)
    ensures TitleKey in inst ==> f.title == host.escAttr(inst[TitleKey])
    ensures TitleKey !in inst ==> f.title == host.escAttr(host.translate(DefaultTitle))
    ensures f.postalCode == host.escAttr(if PostalCodeKey in inst then host.escHtml(inst[PostalCodeKey]) else "")
  {
    var title := if TitleKey in inst then inst[TitleKey] else host.translate(DefaultTitle);
    var postalCode := if PostalCodeKey in inst then host.escHtml(inst[PostalCodeKey]) else "";
    FormValues(host.escAttr(title), host.escAttr(postalCode))
  }

  /**
   * An unsaved widget offers the default title; once saved, the form offers
   * the stored title, so a title the user cleared stays cleared.
   */
  lemma FormDefaultOnlyBeforeSave(host: Host, newInstance: Instance, oldInstance: Instance)
    ensures Form(host, map[]).title == host.escAttr(host.translate(DefaultTitle))
    ensures Form(host, map[]).postalCode == host.escAttr("")
    ensures PhpEmpty(Get(newInstance, TitleKey)) ==>
      Form(host, Update(host, newInstance, oldInstance)).title == host.escAttr("")
    ensures PhpEmpty(Get(newInstance, PostalCodeKey)) ==>
      Form(host, Update(host, newInstance, oldInstance)).postalCode == host.escAttr("")
    ensures var r := Update(host, newInstance, oldInstance);
      Form(host, r).title == host.escAttr(r[TitleKey])
    ensures var r := Update(host, newInstance, oldInstance);
      PostalCodeKey in r ==> Form(host, r).postalCode == host.escAttr(host.escHtml(r[PostalCodeKey]))
  {
  }
}
