/** The scraped record and its cleaner `clean_watch_data`
    (src/watchfinder_scraper.py:48-77). */
module WatchRecords {
  import opened Wrappers
  import opened Text
  import opened Dicts

  /** The value of the dict `extract_watch_data` builds: its keys "Model",
      "Reference Code", "Price" and "Specifications" (label -> value). */
  datatype RawRecord = RawRecord(model: string, referenceCode: string, price: string, specifications: Dict)

  /** That dict as a mutable object: `clean_watch_data` overwrites its fields in
      place and hands the same object back. */
  class WatchRecord {
    var model: string
    var referenceCode: string
    var price: string
    var specifications: Dict

    function Value(): RawRecord
      reads this
    {
      RawRecord(model, referenceCode, price, specifications)
    }

    constructor (r: RawRecord)
      ensures Value() == r
    {
      model := r.model;
      referenceCode := r.referenceCode;
      price := r.price;
      specifications := r.specifications;
    }

    /** Overwrites every key of the dict at once. */
    method Assign(r: RawRecord)
      modifies this
      ensures Value() == r
    {
      model, referenceCode, price, specifications := r.model, r.referenceCode, r.price, r.specifications;
    }
  }

  /** Lines 64-66: `clean_text`, then every `$` and `,` deleted. */
  function CleanPrice(p: string): string
  {
    Without(CleanText(p), {'$', ','})
  }

  /** The pairs the loop of lines 70-73 assigns, in order: each entry with its
      key and its value cleaned. */
  function CleanPairs(d: Dict): seq<(string, string)>
  {
    MapPairs(d, CleanText)
  }

  /** `cleaned_specs` after the loop of lines 69-73. */
  function CleanSpecs(d: Dict): Dict
  {
    PutAll([], CleanPairs(d))
  }

  /** The record `clean_watch_data` leaves behind. */
  function CleanRecord(r: RawRecord): RawRecord
  {
    RawRecord(CleanText(r.model), CleanText(r.referenceCode), CleanPrice(r.price), CleanSpecs(r.specifications))
  }

  /** `clean_watch_data`: overwrites the fields of `w` and returns `w` itself. */
  method CleanWatchData(w: WatchRecord) returns (same: WatchRecord)
    modifies w
    ensures same == w
    ensures w.Value() == CleanRecord(old(w.Value()))
  {
    var model := CleanText(w.model);
    var referenceCode := CleanText(w.referenceCode);
    var price := CleanText(w.price);
    price := Without(price, {'$', ','});
    var cleaned := CleanSpecsLoop(w.specifications);
    w.Assign(RawRecord(model, referenceCode, price, cleaned));
    same := w;
  }

  /** Lines 69-73: `cleaned_specs` filled entry by entry. */
  method CleanSpecsLoop(specs: Dict) returns (cleaned: Dict)
    ensures cleaned == CleanSpecs(specs)
  {
    cleaned := [];
    for i := 0 to |specs|
      invariant cleaned == CleanSpecs(specs[..i])
    {
      var key, value := specs[i].0, specs[i].1;
      CleanSpecsStep(specs, i);
      cleaned := Put(cleaned, CleanText(key), CleanText(value));
    }
    assert specs[..|specs|] == specs;
  }

  lemma CleanSpecsStep(specs: Dict, i: nat)
    requires i < |specs|
    ensures CleanSpecs(specs[..i + 1]) == Put(CleanSpecs(specs[..i]), CleanText(specs[i].0), CleanText(specs[i].1))
  {
    assert specs[..i + 1] == specs[..i] + [specs[i]];
    CleanSpecsSnoc(specs[..i], specs[i]);
  }

  lemma CleanSpecsSnoc(d: Dict, e: (string, string))
    ensures CleanSpecs(d + [e]) == Put(CleanSpecs(d), CleanText(e.0), CleanText(e.1))
  {
    MapPairsSnoc(d, e, CleanText);
    PutAllSnoc([], CleanPairs(d), (CleanText(e.0), CleanText(e.1)));
  }

  // ---------------------------------------------------------------------------
  // Properties

  /** The cleaned price holds no `$` and no `,`; every other character of the
      cleaned text is kept. */
  lemma CleanPriceChars(p: string)
    ensures '$' !in CleanPrice(p) && ',' !in CleanPrice(p)
    ensures forall c :: c != '$' && c != ',' ==> (c in CleanPrice(p) <==> c in CleanText(p))
  {
    WithoutMembers(CleanText(p), {'$', ','});
  }

  /** A price that `clean_text` leaves alone and that holds no `$` or `,` is
      its own cleaned form. */
  lemma CleanPriceOfClean(p: string)
    requires CleanText(p) == p && '$' !in p && ',' !in p
    ensures CleanPrice(p) == p
  {
    WithoutAbsent(p, {'$', ','});
  }

  lemma RunsNA()
    ensures Runs("N/A") == ["N", "A"]
  {
    assert "N/A" == "N" + "/A";
    assert "/A" == ['/'] + "A";
    assert "A" == "A" + [];
    RunsWordThen("N", "/A");
    RunsNonWordThen("/", "A");
    RunsWordThen("A", []);
  }

  lemma CleanTextNA()
    ensures CleanText("N/A") == "N/A"
  {
    RunsNA();
    CleanTextFixpoint("N/A");
  }

  /** The placeholder for a missing price passes through unchanged. */
  lemma CleanPriceNA()
    ensures CleanPrice("N/A") == "N/A"
  {
    CleanTextNA();
    CleanPriceOfClean("N/A");
  }

  /** A non-empty group of decimal digits. */
  ghost predicate IsDigits(s: string)
  {
    |s| > 0 && forall i :: 0 <= i < |s| ==> '0' <= s[i] <= '9'
  }

  /** A price written as a sign, a group of digits, a comma and a second group:
      the sign and the comma are not word characters, so the runs are the two
      groups. */
  lemma RunsPrice(sign: char, a: string, b: string)
    requires !IsWordChar(sign) && IsDigits(a) && IsDigits(b)
    ensures Runs([sign] + a + [','] + b) == [a, b]
  {
    var tail := a + ([','] + b);
    assert [sign] + a + [','] + b == [sign] + tail;
    RunsNonWordThen([sign], tail);
    RunsWordThen(a, [','] + b);
    RunsNonWordThen([','], b);
    RunsWordThen(b, []);
    assert b + [] == b;
  }

  /** Deleting the separators from such a price leaves the sign's remains and
      the digits. */
  lemma DropSeparators(sign: char, a: string, b: string)
    requires IsDigits(a) && IsDigits(b)
    ensures Without([sign] + a + [','] + b, {'$', ','}) == Without([sign], {'$', ','}) + a + b
  {
    var d := {'$', ','};
    var x := [sign] + a;
    var y := x + [','];
    var kept := Without([sign], d) + a;
    assert Without(x, d) == kept by {
      WithoutAppend([sign], a, d);
      WithoutAbsent(a, d);
    }
    assert Without(y, d) == kept by {
      WithoutAppend(x, [','], d);
      assert Without([','], d) == [];
      assert kept + [] == kept;
    }
    assert Without(y + b, d) == kept + b by {
      WithoutAppend(y, b, d);
      WithoutAbsent(b, d);
    }
  }

  /** Such a price is already clean text, so cleaning it only deletes the `$`
      and the thousands separator: the digits come out joined. */
  lemma CleanPriceGrouped(sign: char, a: string, b: string)
    requires !IsWordChar(sign) && !IsSpace(sign) && IsDigits(a) && IsDigits(b)
    ensures CleanPrice([sign] + a + [','] + b) == Without([sign], {'$', ','}) + a + b
  {
    var p := [sign] + a + [','] + b;
    assert IsClean(p) by {
      RunsPrice(sign, a, b);
      assert a[0] != 'M' && b[0] != 'M' && a[0] != 'm' && b[0] != 'm';
      assert "MM" != a && "MM" != b && "metres" != a && "metres" != b;
      forall i | 0 <= i < |p| ensures !IsSpace(p[i]) {
        if 0 < i <= |a| {
          assert p[i] == a[i - 1];
        } else if |a| + 1 < i {
          assert p[i] == b[i - |a| - 2];
        }
      }
    }
    CleanTextFixpoint(p);
    DropSeparators(sign, a, b);
  }

  /** A dollar amount loses its sign and its thousands separator. */
  lemma CleanPriceDollars()
    ensures CleanPrice("$5,200") == "5200"
  {
    CleanPriceGrouped('$', "5", "200");
    assert "$5,200" == ['$'] + "5" + [','] + "200";
    assert Without("$", {'$', ','}) == [];
    assert [] + "5" + "200" == "5200";
  }

  /** Any other currency sign stays. */
  lemma CleanPricePounds()
    ensures CleanPrice("£5,200") == "£5200"
  {
    CleanPriceGrouped('£', "5", "200");
    assert "£5,200" == ['£'] + "5" + [','] + "200";
    assert Without("£", {'$', ','}) == "£";
    assert "£" + "5" + "200" == "£5200";
  }

  /** A cleaned label holds the cleaned value of the LAST entry whose label
      cleans to it; a label no entry cleans to is absent. */
  lemma CleanSpecsGet(d: Dict, k: string)
    ensures Get(CleanSpecs(d), k).None? <==> forall i :: 0 <= i < |d| ==> CleanText(d[i].0) != k
    ensures forall j :: 0 <= j < |d| && CleanText(d[j].0) == k && (forall i :: j < i < |d| ==> CleanText(d[i].0) != k) ==>
                        Get(CleanSpecs(d), k) == Some(CleanText(d[j].1))
  {
    var ps := CleanPairs(d);
    forall i | 0 <= i < |d|
      ensures ps[i] == (CleanText(d[i].0), CleanText(d[i].1))
    {
      MapPairsAt(d, CleanText, i);
    }
    PutAllGet([], ps, k);
    LastValueSpec(ps, k);
  }

  /** The cleaned specification map is a dict: no label twice. */
  lemma CleanSpecsDistinct(d: Dict)
    ensures DistinctKeys(CleanSpecs(d))
  {
    PutAllDistinct([], CleanPairs(d));
  }
}
