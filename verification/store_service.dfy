/**
  The record shaping of `StoreService`: the configuration summary built from
  a store's configuration entries, the point-of-sale revenue taken out of
  the web-store revenue, the sign-up date normalisation, and the contact
  list with its default marketing contact. The repository calls around them
  are not part of this model. Fields of the source records that these
  operations copy without looking at are a type parameter (`details`).
 */
module StoreService {
  import opened Wrappers
  import Text
  import Seqs

  // ---------------------------------------------------------------------
  // Configuration
  // ---------------------------------------------------------------------

  const CrallSearchKey := "CRALL_SEARCH"
  const CrallStatusKey := "CRALL_STATUS"
  const CrallRecommendationKey := "CRALL_RECOMMENDATION"
  const DefaultOrdersCanceledIdKey := "DEFAULT_ORDERS_CANCELED_ID"
  const TemplateNameKey := "TEMPLATE_NAME"
  const KlarnaKeys := ["KLARNA_CHECKOUT_ENABLED", "KLARNA_CHECKOUT_V3_STATUS", "KLARNA_NATIVE_STATUS"]

  /** One row of a store's configuration; both columns may be null. */
  datatype StoreConfiguration = StoreConfiguration(key: Option<string>, value: Option<string>)

  datatype ConfigurationInfo = ConfigurationInfo(
    installedApps: string,
    crallSearch: bool,
    crallStatus: bool,
    crallRecommendation: bool,
    defaultOrdersCanceledId: int,
    templates: Option<string>,
    klarnaInstalled: bool)

  /** Some entry has exactly this key (`Any(x => x.ConfigurationKey == key)`). */
  predicate HasKey(cs: seq<StoreConfiguration>, key: string) {
    exists i :: 0 <= i < |cs| && cs[i].key == Some(key)
  }

  /** Some entry's key equals the app name, ignoring case. */
  predicate AppInstalled(cs: seq<StoreConfiguration>, app: string) {
    exists i :: 0 <= i < |cs| && cs[i].key.Some? && Text.EqualsIgnoreCase(cs[i].key.value, app)
  }

  /** `";" + a` for every name, concatenated in order. */
  function Prefixed(names: seq<string>): (r: string)
    decreases |names|
  {
    if names == [] then "" else Prefixed(names[..|names| - 1]) + ";" + names[|names| - 1]
  }

  /** The installed-apps loop of lines 81-84: over the app names in their
      order, the accumulated string grows by `";" + name` for every name some
      entry carries as its key. */
  function InstalledApps(cs: seq<StoreConfiguration>, apps: seq<string>): (r: string)
    decreases |apps|
  {
    if apps == [] then ""
    else
      var last := apps[|apps| - 1];
      InstalledApps(cs, apps[..|apps| - 1]) + (if AppInstalled(cs, last) then ";" + last else "")
  }

  /** `AppInstalled` as the filter of the `Where` clause. */
  function InstalledIn(cs: seq<StoreConfiguration>): string -> bool {
    (a: string) => AppInstalled(cs, a)
  }

  /** The loop is the installed app names, each preceded by ';', in app order. */
  lemma {:induction false} InstalledAppsSpec(cs: seq<StoreConfiguration>, apps: seq<string>)
    ensures InstalledApps(cs, apps) == Prefixed(Seqs.Filter(apps, InstalledIn(cs)))
    decreases |apps|
  {
    if apps != [] {
      var p := InstalledIn(cs);
      var init := apps[..|apps| - 1];
      var last := apps[|apps| - 1];
      InstalledAppsSpec(cs, init);
      var f := Seqs.Filter(apps, p);
      assert p(last) == AppInstalled(cs, last);
      assert apps[..|apps| - 1] == init;
      assert f == Seqs.Filter(init, p) + (if p(last) then [last] else []);
      if p(last) {
        assert f[..|f| - 1] == Seqs.Filter(init, p) && f[|f| - 1] == last;
        assert Prefixed(f) == Prefixed(Seqs.Filter(init, p)) + ";" + last;
        assert InstalledApps(cs, apps) == InstalledApps(cs, init) + (";" + last);
        assert InstalledApps(cs, init) + (";" + last) == InstalledApps(cs, init) + ";" + last;
      } else {
        assert f == Seqs.Filter(init, p);
      }
    }
  }

  /** Every name contributes at least its separator, so the string is empty
      exactly when no app is installed. */
  lemma {:induction false} InstalledAppsEmpty(cs: seq<StoreConfiguration>, apps: seq<string>)
    ensures InstalledApps(cs, apps) == "" <==> forall i :: 0 <= i < |apps| ==> !AppInstalled(cs, apps[i])
    decreases |apps|
  {
    if apps != [] {
      var init := apps[..|apps| - 1];
      InstalledAppsEmpty(cs, init);
      assert forall i :: 0 <= i < |init| ==> init[i] == apps[i];
      if InstalledApps(cs, init) != "" {
        var i :| 0 <= i < |init| && AppInstalled(cs, init[i]);
        assert AppInstalled(cs, apps[i]);
      }
    }
  }

  /** `FirstOrDefault(x => x.ConfigurationKey == key)`. */
  function FirstWithKey(cs: seq<StoreConfiguration>, key: string): (r: Option<StoreConfiguration>)
    ensures r.None? <==> !HasKey(cs, key)
    ensures r.Some? ==> exists i :: 0 <= i < |cs| && cs[i] == r.value && cs[i].key == Some(key)
                                    && forall j :: 0 <= j < i ==> cs[j].key != Some(key)
  {
    if HasKey(cs, key) then Some(cs[Seqs.FirstIndex(cs, (c: StoreConfiguration) => c.key == Some(key))])
    else None
  }

  /** `Convert.ToInt32(FirstOrDefault(...)?.ConfigurationValue)`: a missing entry or
      value converts to 0, a text that does not convert is an error carrying it. */
  function DefaultOrdersCanceledId(cs: seq<StoreConfiguration>, toInt32: string -> Option<int>)
    : (r: Result<int, string>)
  {
    match FirstWithKey(cs, DefaultOrdersCanceledIdKey)
    case None => Success(0)
    case Some(c) =>
      match c.value
      case None => Success(0)
      case Some(t) =>
        match toInt32(t)
        case Some(n) => Success(n)
        case None => Failure(t)
  }

  /** `GetStoreConfigByStoreName`: null for an empty list, otherwise the summary.
      `apps` stands for the values of `MystoreApps.FriendlyNames`, in order, and
      `toInt32` for `Convert.ToInt32` on a non-null string. */
  function GetStoreConfigByStoreName(cs: seq<StoreConfiguration>, apps: seq<string>, toInt32: string -> Option<int>)
    : (r: Result<Option<ConfigurationInfo>, string>)
    ensures cs == [] ==> r == Success(None)
    ensures r.Failure? <==> cs != [] && DefaultOrdersCanceledId(cs, toInt32).Failure?
    ensures r.Success? && r.value.Some? ==>
              var info := r.value.value;
              && cs != []
              && (info.installedApps == "" <==> forall i :: 0 <= i < |apps| ==> !AppInstalled(cs, apps[i]))
              && (info.crallSearch <==> HasKey(cs, CrallSearchKey))
              && (info.crallStatus <==> HasKey(cs, CrallStatusKey))
              && (info.crallRecommendation <==> HasKey(cs, CrallRecommendationKey))
              && (info.klarnaInstalled <==> exists k :: 0 <= k < |KlarnaKeys| && HasKey(cs, KlarnaKeys[k]))
              && (info.templates.Some? ==> HasKey(cs, TemplateNameKey))
  {
    if cs == [] then Success(None)
    else
      var canceled :- DefaultOrdersCanceledId(cs, toInt32);
      InstalledAppsEmpty(cs, apps);
      Success(Some(ConfigurationInfo(
        installedApps := InstalledApps(cs, apps),
        crallSearch := HasKey(cs, CrallSearchKey),
        crallStatus := HasKey(cs, CrallStatusKey),
        crallRecommendation := HasKey(cs, CrallRecommendationKey),
        defaultOrdersCanceledId := canceled,
        templates := if HasKey(cs, TemplateNameKey) then FirstWithKey(cs, TemplateNameKey).value.value else None,
        klarnaInstalled := HasKey(cs, KlarnaKeys[0]) || HasKey(cs, KlarnaKeys[1]) || HasKey(cs, KlarnaKeys[2]))))
  }

  /** The id is the value of the first DEFAULT_ORDERS_CANCELED_ID entry, 0 when
      there is none or its value is null, and `Templates` the value of the
      first TEMPLATE_NAME entry. */
  lemma {:induction false} FirstEntriesWin(cs: seq<StoreConfiguration>, apps: seq<string>, toInt32: string -> Option<int>, i: nat)
    requires i < |cs|
    requires GetStoreConfigByStoreName(cs, apps, toInt32).Success?
    ensures var info := GetStoreConfigByStoreName(cs, apps, toInt32).value.value;
            && (!HasKey(cs, DefaultOrdersCanceledIdKey) ==> info.defaultOrdersCanceledId == 0)
            && (cs[i].key == Some(DefaultOrdersCanceledIdKey)
                && (forall j :: 0 <= j < i ==> cs[j].key != Some(DefaultOrdersCanceledIdKey))
                ==> && (cs[i].value.None? ==> info.defaultOrdersCanceledId == 0)
                    && (cs[i].value.Some? ==> Some(info.defaultOrdersCanceledId) == toInt32(cs[i].value.value)))
            && (cs[i].key == Some(TemplateNameKey) && (forall j :: 0 <= j < i ==> cs[j].key != Some(TemplateNameKey))
                ==> info.templates == cs[i].value)
  {
    var first := FirstWithKey(cs, DefaultOrdersCanceledIdKey);
    if first.Some? {
      var k :| 0 <= k < |cs| && cs[k] == first.value && cs[k].key == Some(DefaultOrdersCanceledIdKey)
               && forall j :: 0 <= j < k ==> cs[j].key != Some(DefaultOrdersCanceledIdKey);
      assert cs[i].key == Some(DefaultOrdersCanceledIdKey) && (forall j :: 0 <= j < i ==> cs[j].key != Some(DefaultOrdersCanceledIdKey))
             ==> i == k;
    }
    var template := FirstWithKey(cs, TemplateNameKey);
    if template.Some? {
      var k :| 0 <= k < |cs| && cs[k] == template.value && cs[k].key == Some(TemplateNameKey)
               && forall j :: 0 <= j < k ==> cs[j].key != Some(TemplateNameKey);
      assert cs[i].key == Some(TemplateNameKey) && (forall j :: 0 <= j < i ==> cs[j].key != Some(TemplateNameKey))
             ==> i == k;
    }
  }

  /** The configuration of the installed-apps example: two app keys, a
      canceled-orders id of 4 and a Crall search entry; "API_ACTIVE" stands for
      an app the store does not have. */
  function ExampleConfiguration(): seq<StoreConfiguration> {
    [StoreConfiguration(Some("DIGITAL_PRODUCTS_ACTIVE"), Some("")),
     StoreConfiguration(Some(DefaultOrdersCanceledIdKey), Some("4")),
     StoreConfiguration(Some("KLARNA_CHECKOUT_V3_STATUS"), Some("")),
     StoreConfiguration(Some(CrallSearchKey), Some(""))]
  }

  const ExampleApps := ["API_ACTIVE", "DIGITAL_PRODUCTS_ACTIVE", "KLARNA_CHECKOUT_V3_STATUS"]

  /** No key of the example has the length of "API_ACTIVE". */
  lemma {:induction false} ExampleMissingApp()
    ensures !AppInstalled(ExampleConfiguration(), ExampleApps[0])
  {
    var cs := ExampleConfiguration();
    forall i | 0 <= i < |cs| ensures !Text.EqualsIgnoreCase(cs[i].key.value, ExampleApps[0]) {
      assert |Text.FoldCase(cs[i].key.value)| != |Text.FoldCase(ExampleApps[0])|;
    }
  }

  /** The two other apps are keys of the example, in the same case. */
  lemma {:induction false} ExampleAppsPresent()
    ensures AppInstalled(ExampleConfiguration(), ExampleApps[1])
    ensures AppInstalled(ExampleConfiguration(), ExampleApps[2])
  {
    var cs := ExampleConfiguration();
    assert cs[0].key.value == ExampleApps[1];
    assert cs[2].key.value == ExampleApps[2];
  }

  lemma {:induction false} ExampleInstalledApps()
    ensures InstalledApps(ExampleConfiguration(), ExampleApps) == ";" + ExampleApps[1] + ";" + ExampleApps[2]
  {
    var cs := ExampleConfiguration();
    var apps := ExampleApps;
    ExampleMissingApp();
    ExampleAppsPresent();
    assert InstalledApps(cs, apps[..1]) == "" by {
      assert apps[..1][..0] == [];
    }
    assert InstalledApps(cs, apps[..2]) == ";" + apps[1] by {
      assert apps[..2][..1] == apps[..1];
    }
    assert apps[..2] == apps[..|apps| - 1];
  }

  /** The keys the example has and lacks. */
  lemma {:induction false} ExampleKeys()
    ensures HasKey(ExampleConfiguration(), CrallSearchKey) && HasKey(ExampleConfiguration(), KlarnaKeys[1])
    ensures !HasKey(ExampleConfiguration(), CrallStatusKey) && !HasKey(ExampleConfiguration(), CrallRecommendationKey)
    ensures !HasKey(ExampleConfiguration(), TemplateNameKey)
    ensures FirstWithKey(ExampleConfiguration(), DefaultOrdersCanceledIdKey) == Some(ExampleConfiguration()[1])
  {
    var cs := ExampleConfiguration();
    assert cs[3].key == Some(CrallSearchKey) && cs[2].key == Some(KlarnaKeys[1]);
    assert CrallStatusKey != CrallSearchKey by { assert CrallStatusKey[7] != CrallSearchKey[7]; }
  }

  lemma {:induction false} ConfigurationExample(toInt32: string -> Option<int>)
    requires toInt32("4") == Some(4)
    ensures GetStoreConfigByStoreName(ExampleConfiguration(), ExampleApps, toInt32)
            == Success(Some(ConfigurationInfo(";" + ExampleApps[1] + ";" + ExampleApps[2],
                                              true, false, false, 4, None, true)))
  {
    ExampleInstalledApps();
    ExampleKeys();
  }

  // ---------------------------------------------------------------------
  // Revenue
  // ---------------------------------------------------------------------

  /** The nine revenue figures, shared by the web-store totals (`GeneralInfo`)
      and the point-of-sale totals (`OrderRevenuePos`). */
  datatype Revenue = Revenue(
    lastDay: real, last7Days: real, last30Days: real, last365Days: real,
    last3Months: real, last6Months: real, last9Months: real, yearToDate: real, total: real)

  /** `DateTime` as its tick count; `DateTime.MinValue` has none. */
  type DateTime = nat
  const MinValue: DateTime := 0

  /** `GeneralInfo`: the revenue figures, the sign-up date and everything else. */
  datatype GeneralInfo<D> = GeneralInfo(revenue: Revenue, dateSignedUp: Option<DateTime>, details: D)

  function Minus(a: Revenue, b: Revenue): Revenue {
    Revenue(a.lastDay - b.lastDay, a.last7Days - b.last7Days, a.last30Days - b.last30Days,
            a.last365Days - b.last365Days, a.last3Months - b.last3Months, a.last6Months - b.last6Months,
            a.last9Months - b.last9Months, a.yearToDate - b.yearToDate, a.total - b.total)
  }

  function Plus(a: Revenue, b: Revenue): Revenue {
    Revenue(a.lastDay + b.lastDay, a.last7Days + b.last7Days, a.last30Days + b.last30Days,
            a.last365Days + b.last365Days, a.last3Months + b.last3Months, a.last6Months + b.last6Months,
            a.last9Months + b.last9Months, a.yearToDate + b.yearToDate, a.total + b.total)
  }

  /** `SubtractPosRevenueFromEstore`: with point-of-sale figures, each web-store
      figure loses its point-of-sale counterpart, so adding them back restores it;
      without, the record is returned as it is. Nothing but the revenue changes. */
  function SubtractPosRevenueFromEstore<D>(g: GeneralInfo<D>, pos: Option<Revenue>): (r: GeneralInfo<D>)
    ensures pos.None? ==> r == g
    ensures pos.Some? ==> Plus(r.revenue, pos.value) == g.revenue
    ensures r.dateSignedUp == g.dateSignedUp && r.details == g.details
  {
    match pos
    case None => g
    case Some(p) => g.(revenue := Minus(g.revenue, p))
  }

  /** Subtraction is the only record with that property: any record that
      gives back the original revenue when the point-of-sale figures are
      added is the subtracted one. */
  lemma {:induction false} SubtractUnique<D>(g: GeneralInfo<D>, p: Revenue, x: Revenue)
    requires Plus(x, p) == g.revenue
    ensures x == SubtractPosRevenueFromEstore(g, Some(p)).revenue
  {
  }

  /** The figures of the store-statistics example: 100 - 0, 300 - 50, 500 - 100,
      750 - 200 and 750 - 200. */
  lemma {:induction false} SubtractExample<D>(d: D)
    ensures SubtractPosRevenueFromEstore(
              GeneralInfo(Revenue(100.0, 300.0, 500.0, 750.0, 0.0, 0.0, 0.0, 750.0, 0.0), Some(MinValue), d),
              Some(Revenue(0.0, 50.0, 100.0, 200.0, 0.0, 0.0, 0.0, 200.0, 0.0))).revenue
            == Revenue(100.0, 250.0, 400.0, 550.0, 0.0, 0.0, 0.0, 550.0, 0.0)
  {
  }

  /** Lines 37-40: a sign-up date equal to `DateTime.MinValue` becomes null. */
  function NormalizeDateSignedUp<D>(g: GeneralInfo<D>): (r: GeneralInfo<D>)
    ensures r.dateSignedUp.None? <==> g.dateSignedUp.None? || g.dateSignedUp == Some(MinValue)
    ensures r.dateSignedUp.Some? ==> r.dateSignedUp == g.dateSignedUp
    ensures r.revenue == g.revenue && r.details == g.details
  {
    if g.dateSignedUp == Some(MinValue) then g.(dateSignedUp := None) else g
  }

  /** The `General` record of the store (lines 35-40): `SubtractPosRevenueFromEstore`
      updates the statistics record in place and returns it, so the date
      normalisation that follows shows in the same record. */
  function General<D>(g: GeneralInfo<D>, pos: Option<Revenue>): GeneralInfo<D> {
    NormalizeDateSignedUp(SubtractPosRevenueFromEstore(g, pos))
  }

  /** Both updates reach the record, in either order: they touch different fields. */
  lemma {:induction false} GeneralUpdates<D>(g: GeneralInfo<D>, pos: Option<Revenue>)
    ensures General(g, pos) == SubtractPosRevenueFromEstore(NormalizeDateSignedUp(g), pos)
    ensures General(g, pos).dateSignedUp.None? <==> g.dateSignedUp.None? || g.dateSignedUp == Some(MinValue)
    ensures pos.Some? ==> Plus(General(g, pos).revenue, pos.value) == g.revenue
    ensures pos.None? ==> General(g, pos).revenue == g.revenue
    ensures General(g, pos).details == g.details
  {
  }

  // ---------------------------------------------------------------------
  // Contacts
  // ---------------------------------------------------------------------

  /** `Contact`: the admin id, the marketing flag and the other fields. */
  datatype Contact<D> = Contact(adminId: int, defaultMarketingContact: bool, details: D)

  /** `Min(x => x.AdminId)` of a non-empty list. */
  function MinAdminId<D>(cs: seq<Contact<D>>): (m: int)
    requires cs != []
    ensures exists i :: 0 <= i < |cs| && cs[i].adminId == m
    ensures forall i :: 0 <= i < |cs| ==> m <= cs[i].adminId
    decreases |cs|
  {
    if |cs| == 1 then cs[0].adminId
    else
      var m := MinAdminId(cs[1..]);
      assert forall i :: 1 <= i < |cs| ==> cs[i] == cs[1..][i - 1];
      if cs[0].adminId <= m then cs[0].adminId else m
  }

  /** Sets the flag of every contact whose admin id is `m`. */
  function MarkAdmin<D>(cs: seq<Contact<D>>, m: int): (r: seq<Contact<D>>)
    ensures |r| == |cs|
    ensures forall i :: 0 <= i < |cs| ==>
              r[i] == if cs[i].adminId == m then cs[i].(defaultMarketingContact := true) else cs[i]
  {
    seq(|cs|, i requires 0 <= i < |cs| => if cs[i].adminId == m then cs[i].(defaultMarketingContact := true) else cs[i])
  }

  /** `ProcessContacts`: the contacts the validator accepts, in order, with
      the ones holding the least admin id marked as default marketing contact.
      `isValid` stands for `ContactValidator`. */
  function ProcessContacts<D(==)>(contacts: seq<Contact<D>>, isValid: Contact<D> -> bool): (r: seq<Contact<D>>)
    ensures |r| == |Seqs.Filter(contacts, isValid)|
  {
    var valid := Seqs.Filter(contacts, isValid);
    if valid == [] then valid else MarkAdmin(valid, MinAdminId(valid))
  }

  /** The result is the accepted contacts in input order; each keeps its id and
      other fields, and its flag is set exactly when it already was or no
      returned contact has a smaller admin id. Some contact is marked whenever
      any is returned. */
  lemma ProcessContactsSpec<D>(contacts: seq<Contact<D>>, isValid: Contact<D> -> bool)
    ensures var valid := Seqs.Filter(contacts, isValid);
            var r := ProcessContacts(contacts, isValid);
            && Seqs.Subsequence(valid, contacts)
            && (forall i :: 0 <= i < |contacts| ==> (contacts[i] in valid <==> isValid(contacts[i])))
            && (forall i :: 0 <= i < |r| ==>
                  && r[i].adminId == valid[i].adminId && r[i].details == valid[i].details
                  && (r[i].defaultMarketingContact <==>
                        valid[i].defaultMarketingContact || forall j :: 0 <= j < |r| ==> r[i].adminId <= r[j].adminId))
            && (r != [] ==> exists i :: 0 <= i < |r| && r[i].defaultMarketingContact)
  {
    var valid := Seqs.Filter(contacts, isValid);
    Seqs.FilterSubsequence(contacts, isValid);
    if valid != [] {
      var m := MinAdminId(valid);
      var r := MarkAdmin(valid, m);
      assert forall j :: 0 <= j < |r| ==> r[j].adminId == valid[j].adminId;
      var k :| 0 <= k < |valid| && valid[k].adminId == m;
      assert r[k].defaultMarketingContact;
    }
  }

  /** The two contacts of the example: the one with admin id 1 is marked, the
      one with admin id 2 is not. */
  lemma {:induction false} ProcessContactsExample<D>(d1: D, d2: D)
    ensures ProcessContacts([Contact(1, false, d1), Contact(2, false, d2)], (c: Contact<D>) => true)
            == [Contact(1, true, d1), Contact(2, false, d2)]
  {
    var cs := [Contact(1, false, d1), Contact(2, false, d2)];
    Seqs.FilterAll(cs, (c: Contact<D>) => true);
    assert MinAdminId(cs) == 1;
  }
}
