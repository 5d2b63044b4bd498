/**
  The coverage checks of the product catalogue, scripts/catalog/product-catalog-artifact.ts: why the
  look-up of every product's translation cannot fail after them.
*/
module CatalogCoverage {
  import opened Common

  datatype Product = Product(code: string, sourceDescription: string)

  datatype Translation = Translation(code: string, description: string)

  datatype CoverageError =
    | IncompleteCoverage
    | DuplicateProductCode
    | DuplicateTranslationCode
    | UnknownProduct(code: string)
    | InvalidTranslation(code: string)

  function ProductCodes(products: seq<Product>): seq<string> {
    seq(|products|, k requires 0 <= k < |products| => products[k].code)
  }

  function TranslationCodes(translations: seq<Translation>): seq<string> {
    seq(|translations|, k requires 0 <= k < |translations| => translations[k].code)
  }

  /** Pigeonhole: a set inside another one of at most its size is all of it. */
  lemma SubsetOfSameSize(small: set<string>, large: set<string>)
    requires small <= large && |large| <= |small|
    ensures small == large
  {
    var rest := large - small;
    assert large == small + rest;
    assert |large| == |small| + |rest|;
    assert rest == {};
  }

  function ByCode(products: seq<Product>): (m: map<string, Product>)
    ensures m.Keys == Elements(ProductCodes(products))
    ensures forall c :: c in m ==> m[c] in products && m[c].code == c
  {
    if products == [] then map[]
    else
      var init, last := products[..|products| - 1], products[|products| - 1];
      assert ProductCodes(products) == ProductCodes(init) + [last.code];
      ByCode(init)[last.code := last]
  }

  /** Both lists are free of duplicates and hold the same codes. */
  ghost predicate Bijection(products: seq<Product>, translations: seq<Translation>) {
    && Distinct(ProductCodes(products)) && Distinct(TranslationCodes(translations))
    && Elements(ProductCodes(products)) == Elements(TranslationCodes(translations))
  }

  lemma {:induction false} CodesAreProducts(products: seq<Product>, translations: seq<Translation>)
    requires forall k :: 0 <= k < |translations| ==> translations[k].code in ByCode(products)
    ensures Elements(TranslationCodes(translations)) <= Elements(ProductCodes(products))
  {
    var codes := TranslationCodes(translations);
    assert forall k :: 0 <= k < |codes| ==> codes[k] == translations[k].code;
  }

  /** As many distinct codes on both sides, and each translation's is a product's: the codes are the same. */
  lemma {:induction false} CodesAreEqual(products: seq<Product>, translations: seq<Translation>)
    requires |products| == |translations|
    requires Distinct(ProductCodes(products)) && Distinct(TranslationCodes(translations))
    requires forall k :: 0 <= k < |translations| ==> translations[k].code in ByCode(products)
    ensures Bijection(products, translations)
  {
    var productCodes, translationCodes := ProductCodes(products), TranslationCodes(translations);
    SetSizeIff(productCodes);
    SetSizeIff(translationCodes);
    CodesAreProducts(products, translations);
    SubsetOfSameSize(Elements(translationCodes), Elements(productCodes));
  }

  lemma SameNumber(products: seq<Product>, translations: seq<Translation>)
    ensures Bijection(products, translations) ==> |products| == |translations|
  {
    SetSizeIff(ProductCodes(products));
    SetSizeIff(TranslationCodes(translations));
  }

  /** The loop over the translations: each is of a known product, and passes the checks of its text. */
  method ValidateTranslations(sourceByCode: map<string, Product>, translations: seq<Translation>,
                              textIsValid: (Product, Translation) -> bool)
    returns (error: Option<CoverageError>)
    ensures error.None? <==>
            forall t :: t in translations ==> t.code in sourceByCode && textIsValid(sourceByCode[t.code], t)
  {
    for n := 0 to |translations|
      invariant forall k :: 0 <= k < n ==> translations[k].code in sourceByCode
      invariant forall k :: 0 <= k < n ==> textIsValid(sourceByCode[translations[k].code], translations[k])
    {
      var translation := translations[n];
      assert translation in translations;
      if translation.code !in sourceByCode {
        return Some(UnknownProduct(translation.code));
      }
      if !textIsValid(sourceByCode[translation.code], translation) {
        return Some(InvalidTranslation(translation.code));
      }
    }
    return None;
  }

  /**
    The checks accept exactly when products and translations are in bijection by their codes, as many
    as the manifest says, and every translation passes the checks of its text.
  */
  method ValidateCoverage(products: seq<Product>, translations: seq<Translation>, manifestRows: nat,
                          textIsValid: (Product, Translation) -> bool)
    returns (error: Option<CoverageError>)
    ensures error.None? <==>
            && |products| == manifestRows && Bijection(products, translations)
            && forall t :: t in translations ==> t.code in ByCode(products) && textIsValid(ByCode(products)[t.code], t)
  {
    var productCodes, translationCodes := ProductCodes(products), TranslationCodes(translations);
    SetSizeIff(productCodes);
    SetSizeIff(translationCodes);
    if |products| != manifestRows || |translations| != |products| {
      SameNumber(products, translations);
      return Some(IncompleteCoverage);
    }
    if |Elements(productCodes)| != |productCodes| {
      return Some(DuplicateProductCode);
    }
    if |Elements(translationCodes)| != |translationCodes| {
      return Some(DuplicateTranslationCode);
    }
    error := ValidateTranslations(ByCode(products), translations, textIsValid);
    if error.None? {
      CodesAreEqual(products, translations);
    }
  }

  /** The map that the catalogue is assembled from. */
  function TranslationsByCode(translations: seq<Translation>): (m: map<string, Translation>)
    ensures m.Keys == Elements(TranslationCodes(translations))
    ensures forall c :: c in m ==> m[c] in translations && m[c].code == c
  {
    if translations == [] then map[]
    else
      var init, last := translations[..|translations| - 1], translations[|translations| - 1];
      assert TranslationCodes(translations) == TranslationCodes(init) + [last.code];
      TranslationsByCode(init)[last.code := last]
  }

  /**
    After the checks the look-up of every product's translation succeeds, finds the only translation
    with that code, and different products get different translations: all of them are used.
  */
  lemma {:induction false} LookupIsSafe(products: seq<Product>, translations: seq<Translation>)
    requires Bijection(products, translations)
    ensures var found := TranslationsByCode(translations);
            && (forall p :: p in products ==> p.code in found && found[p.code].code == p.code)
            && (forall t :: t in translations ==> t.code in found && found[t.code] == t)
            && (forall t :: t in translations ==> exists p :: p in products && found[p.code] == t)
  {
    var found := TranslationsByCode(translations);
    forall p | p in products
      ensures p.code in found
    {
      var k :| 0 <= k < |products| && products[k] == p;
      assert ProductCodes(products)[k] == p.code;
    }
    forall t | t in translations
      ensures t.code in found && found[t.code] == t
      ensures exists p :: p in products && p.code in found && found[p.code] == t
    {
      var codes := TranslationCodes(translations);
      var k :| 0 <= k < |translations| && translations[k] == t;
      assert codes[k] == t.code && t.code in Elements(codes);
      var l :| 0 <= l < |translations| && translations[l] == found[t.code];
      assert codes[l] == t.code;
      DistinctPlaces(codes, k, l);
      assert t.code in Elements(ProductCodes(products));
      var j :| 0 <= j < |products| && ProductCodes(products)[j] == t.code;
      assert products[j] in products;
    }
  }
}
