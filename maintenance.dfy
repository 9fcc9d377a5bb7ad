/**
 The due-status evaluator behind the query endpoint: for every rule of the
 maintenance catalog, in catalog order, it finds the basis (the latest of
 the purchase date and the matching service dates, or the highest matching
 service mileage), advances it by the rule's interval, compares the result
 with today or with the current mileage, writes one debug line and, when the
 item is due, one suggestion.
 */
module Maintenance {
  import opened Wrappers
  import opened Calendar
  import opened DateText

  datatype TimeUnit = Month | Year

  /** A rule is either time-based or mileage-based, never both. */
  datatype Schedule =
    | Every(amount: int, unit: TimeUnit)
    | EveryKm(distance: int)

  datatype Rule = Rule(name: string, schedule: Schedule)

  /** The fixed, ordered catalog `maintenanceRules`. */
  const MaintenanceRules: seq<Rule> := [
    Rule("冷却液", Every(3, Year)),
    Rule("机油", Every(6, Month)),
    Rule("制动液", Every(3, Year)),
    Rule("活性炭罐过滤器", Every(3, Year)),
    Rule("四轮对换", Every(2, Year)),
    Rule("空气滤芯", Every(1, Year)),
    Rule("传动皮带", Every(3, Year)),
    Rule("火花塞", EveryKm(30000)),
    Rule("节流阀", EveryKm(20000))
  ]

  /** The catalog's first seven rules are time rules and its last two mileage rules. */
  lemma CatalogOrder()
    ensures |MaintenanceRules| == 9
    ensures forall i :: 0 <= i < 7 ==> MaintenanceRules[i].schedule.Every?
    ensures forall i :: 7 <= i < |MaintenanceRules| ==> MaintenanceRules[i].schedule.EveryKm?
  {
  }

  /** The catalog's time-rule and mileage-rule names, each group in catalog order. */
  lemma CatalogSchedules()
    ensures TimeRuleNames(MaintenanceRules) == ["冷却液", "机油", "制动液", "活性炭罐过滤器", "四轮对换", "空气滤芯", "传动皮带"]
    ensures MileageRuleNames(MaintenanceRules) == ["火花塞", "节流阀"]
  {
    var rules := MaintenanceRules;
    assert rules[..1][..0] == rules[..0];
    assert TimeRuleNames(rules[..1]) == ["冷却液"] && MileageRuleNames(rules[..1]) == [];
    assert rules[..2][..1] == rules[..1];
    assert TimeRuleNames(rules[..2]) == ["冷却液", "机油"] && MileageRuleNames(rules[..2]) == [];
    assert rules[..3][..2] == rules[..2];
    assert TimeRuleNames(rules[..3]) == ["冷却液", "机油", "制动液"] && MileageRuleNames(rules[..3]) == [];
    assert rules[..4][..3] == rules[..3];
    assert TimeRuleNames(rules[..4]) == ["冷却液", "机油", "制动液", "活性炭罐过滤器"] && MileageRuleNames(rules[..4]) == [];
    assert rules[..5][..4] == rules[..4];
    assert TimeRuleNames(rules[..5]) == ["冷却液", "机油", "制动液", "活性炭罐过滤器", "四轮对换"] && MileageRuleNames(rules[..5]) == [];
    assert rules[..6][..5] == rules[..5];
    assert TimeRuleNames(rules[..6]) == ["冷却液", "机油", "制动液", "活性炭罐过滤器", "四轮对换", "空气滤芯"] && MileageRuleNames(rules[..6]) == [];
    assert rules[..7][..6] == rules[..6];
    assert TimeRuleNames(rules[..7]) == ["冷却液", "机油", "制动液", "活性炭罐过滤器", "四轮对换", "空气滤芯", "传动皮带"] && MileageRuleNames(rules[..7]) == [];
    assert rules[..8][..7] == rules[..7];
    assert TimeRuleNames(rules[..8]) == ["冷却液", "机油", "制动液", "活性炭罐过滤器", "四轮对换", "空气滤芯", "传动皮带"] && MileageRuleNames(rules[..8]) == ["火花塞"];
    assert TimeRuleNames(rules) == ["冷却液", "机油", "制动液", "活性炭罐过滤器", "四轮对换", "空气滤芯", "传动皮带"] && MileageRuleNames(rules) == ["火花塞", "节流阀"];
  }

  /** The item name of the record written when the purchase date is first saved. */
  const PurchaseRecordName: string := "车辆购买"

  /** A row of the maintenance log as the query reads it. */
  datatype ServiceLog = ServiceLog(itemName: string, maintenanceDate: string, mileage: int)

  /** What a suggestion or debug line gives as the basis of its computation. */
  datatype Basis =
    | PurchaseDate(date: Date)
    | LastServiceDate(date: Date)
    | PurchaseOdometer
    | LastServiceOdometer(km: int)

  datatype Suggestion = Suggestion(item: string, basis: Basis)

  /** A line of `debugInfo.timeBased`; `daysLeft` is clamped at zero. */
  datatype TimeEntry = TimeEntry(item: string, dueDate: Date, basis: Basis, daysLeft: nat)

  /** A line of `debugInfo.mileageBased`; `kmLeft` is clamped at zero. */
  datatype MileageEntry = MileageEntry(item: string, dueMileage: int, basis: Basis, kmLeft: nat)

  datatype DebugInfo = DebugInfo(queryDate: Date, timeBased: seq<TimeEntry>, mileageBased: seq<MileageEntry>)

  /** The response body `{ suggestions, debugInfo }`. */
  datatype Report = Report(suggestions: seq<Suggestion>, debugInfo: DebugInfo)

  /**
   `NoPurchaseDate` is the 400 answer when no purchase date is on record;
   `InternalError` is the 500 answer when a date cannot be evaluated.
   */
  datatype QueryError = NoPurchaseDate | InternalError

  /** The signed outcome of one rule, before clamping and formatting. */
  datatype Assessment =
    | TimeAssessment(item: string, basis: Basis, dueDate: Date, daysRemaining: int)
    | MileageAssessment(item: string, basis: Basis, dueMileage: int, kmRemaining: int)

  /** `allLogs.filter(log => log.item_name === name)` */
  function ItemLogs(logs: seq<ServiceLog>, name: string): (r: seq<ServiceLog>)
    ensures |r| <= |logs|
  {
    if logs == [] then []
    else (if logs[0].itemName == name then [logs[0]] else []) + ItemLogs(logs[1..], name)
  }

  /** The item's records are exactly the records carrying its name. */
  lemma {:induction false} ItemLogsMembers(logs: seq<ServiceLog>, name: string)
    ensures forall l :: l in ItemLogs(logs, name) <==> l in logs && l.itemName == name
  {
    if logs != [] {
      ItemLogsMembers(logs[1..], name);
      assert logs == [logs[0]] + logs[1..];
    }
  }

  /** `itemLogs.map(log => parseDate(log.maintenance_date))` */
  function ServiceDates(itemLogs: seq<ServiceLog>): (r: seq<JsDate>)
    ensures |r| == |itemLogs|
  {
    if itemLogs == [] then [] else [ParseDate(itemLogs[0].maintenanceDate)] + ServiceDates(itemLogs[1..])
  }

  /** Each service date is its record's parsed maintenance date. */
  lemma {:induction false} ServiceDatesParse(itemLogs: seq<ServiceLog>)
    ensures forall i :: 0 <= i < |itemLogs| ==> ServiceDates(itemLogs)[i] == ParseDate(itemLogs[i].maintenanceDate)
  {
    if itemLogs != [] {
      ServiceDatesParse(itemLogs[1..]);
    }
  }

  /**
   The basis date of a time rule (lines 57-60): the first of the purchase
   date and the service dates once they are sorted latest first, that is the
   latest of them. It fails when one of them is null or an invalid Date,
   which the endpoint cannot compare or print.
   */
  function TimeBasis(purchase: JsDate, dates: seq<JsDate>): (r: Result<ValidDate, QueryError>)
    ensures r.Success? <==> purchase.LocalDate? && forall i :: 0 <= i < |dates| ==> dates[i].LocalDate?
    ensures r.Failure? ==> r.error == InternalError
    ensures r.Success? ==> DayNumber(purchase.date) <= DayNumber(r.value)
    ensures r.Success? ==> forall i :: 0 <= i < |dates| ==> DayNumber(dates[i].date) <= DayNumber(r.value)
  {
    if dates == [] then
      if purchase.LocalDate? then Success(purchase.date) else Failure(InternalError)
    else
      var earlier, last := dates[..|dates| - 1], dates[|dates| - 1];
      assert forall i :: 0 <= i < |earlier| ==> earlier[i] == dates[i];
      var prior := TimeBasis(purchase, earlier);
      if prior.Failure? || !last.LocalDate? then
        Failure(InternalError)
      else
        Success(if DayNumber(prior.value) < DayNumber(last.date) then last.date else prior.value)
  }

  /** The basis is the purchase date or one of the service dates. */
  lemma {:induction false} TimeBasisIsGiven(purchase: JsDate, dates: seq<JsDate>)
    requires TimeBasis(purchase, dates).Success?
    ensures TimeBasis(purchase, dates).value == purchase.date || LocalDate(TimeBasis(purchase, dates).value) in dates
  {
    if dates != [] {
      var earlier := dates[..|dates| - 1];
      assert dates == earlier + [dates[|dates| - 1]];
      TimeBasisIsGiven(purchase, earlier);
    }
  }

  /** Only the set of dates matters to the basis, not their order or repetitions. */
  lemma TimeBasisIgnoresOrder(purchase: JsDate, a: seq<JsDate>, b: seq<JsDate>)
    requires forall d :: d in a <==> d in b
    ensures TimeBasis(purchase, a) == TimeBasis(purchase, b)
  {
    var x, y := TimeBasis(purchase, a), TimeBasis(purchase, b);
    assert x.Success? <==> y.Success? by {
      assert (forall i :: 0 <= i < |a| ==> a[i].LocalDate?) <==> (forall i :: 0 <= i < |b| ==> b[i].LocalDate?) by {
        assert (forall i :: 0 <= i < |a| ==> a[i].LocalDate?) <==> (forall d :: d in a ==> d.LocalDate?);
        assert (forall i :: 0 <= i < |b| ==> b[i].LocalDate?) <==> (forall d :: d in b ==> d.LocalDate?);
      }
    }
    if x.Success? {
      TimeBasisIsGiven(purchase, a);
      TimeBasisIsGiven(purchase, b);
      assert DayNumber(x.value) <= DayNumber(y.value) && DayNumber(y.value) <= DayNumber(x.value);
      DayNumberInjective(x.value, y.value);
    }
  }

  /** One more service date can only move the basis later, never earlier. */
  lemma TimeBasisGrows(purchase: JsDate, dates: seq<JsDate>, d: JsDate)
    requires TimeBasis(purchase, dates + [d]).Success?
    ensures TimeBasis(purchase, dates).Success?
    ensures DayNumber(TimeBasis(purchase, dates).value) <= DayNumber(TimeBasis(purchase, dates + [d]).value)
  {
    assert (dates + [d])[..|dates|] == dates;
  }

  /** `Math.max(0, ...itemLogs.map(log => log.mileage))` (lines 92-94). */
  function HighestMileage(itemLogs: seq<ServiceLog>): (r: int)
    ensures 0 <= r
    ensures forall i :: 0 <= i < |itemLogs| ==> itemLogs[i].mileage <= r
    ensures r == 0 || exists i :: 0 <= i < |itemLogs| && itemLogs[i].mileage == r
  {
    if itemLogs == [] then 0
    else
      var rest := HighestMileage(itemLogs[1..]);
      assert forall i :: 1 <= i < |itemLogs| ==> itemLogs[i] == itemLogs[1..][i - 1];
      if itemLogs[0].mileage > rest then itemLogs[0].mileage else rest
  }

  /** One more record raises the mileage basis to its mileage or leaves it unchanged. */
  lemma HighestMileageGrows(itemLogs: seq<ServiceLog>, l: ServiceLog)
    ensures HighestMileage(itemLogs + [l]) ==
              if l.mileage > HighestMileage(itemLogs) then l.mileage else HighestMileage(itemLogs)
  {
    var longer := itemLogs + [l];
    assert longer[|itemLogs|] == l;
    assert forall i :: 0 <= i < |itemLogs| ==> longer[i] == itemLogs[i];
  }

  /** Only the set of records matters to the mileage basis, not their order or repetitions. */
  lemma HighestMileageIgnoresOrder(a: seq<ServiceLog>, b: seq<ServiceLog>)
    requires forall l :: l in a <==> l in b
    ensures HighestMileage(a) == HighestMileage(b)
  {
    var x, y := HighestMileage(a), HighestMileage(b);
    if x != 0 {
      var i :| 0 <= i < |a| && a[i].mileage == x;
      assert a[i] in b;
    }
    if y != 0 {
      var j :| 0 <= j < |b| && b[j].mileage == y;
      assert b[j] in a;
    }
  }

  /** The due date: the basis advanced with `setMonth` or `setFullYear` (lines 63-68). */
  function Advance(basis: Date, amount: int, unit: TimeUnit): Date {
    match unit
    case Month => AddMonths(basis, amount)
    case Year => AddYears(basis, amount)
  }

  /** A positive interval moves the basis strictly forward. */
  lemma AdvanceIsLater(basis: ValidDate, amount: int, unit: TimeUnit)
    requires amount > 0
    ensures Valid(Advance(basis, amount, unit))
    ensures Precedes(basis, Advance(basis, amount, unit))
  {
    var due := Advance(basis, amount, unit);
    if unit == Month {
      AddMonthsIsLater(basis, amount);
    } else {
      AddYearsIsLater(basis, amount);
    }
    DayNumberOrder(basis, due);
  }

  /** `x > 0 ? x : 0` */
  function Clamp(x: int): (r: nat)
    ensures r == 0 <==> x <= 0
    ensures x > 0 ==> r == x
  {
    if x > 0 then x else 0
  }

  /**
   The basis label of a time rule (lines 73-75): the purchase date exactly
   when the basis is the purchase date (compared by time value).
   */
  function TimeLabel(lastAction: ValidDate, purchase: ValidDate): (b: Basis)
    ensures b == PurchaseDate(purchase) <==> lastAction == purchase
    ensures b == LastServiceDate(lastAction) <==> lastAction != purchase
  {
    DayNumberInjective(lastAction, purchase);
    if DayNumber(lastAction) == DayNumber(purchase) then PurchaseDate(purchase) else LastServiceDate(lastAction)
  }

  /** The assessment of a time rule (lines 55-87). */
  function AssessTime(item: string, amount: int, unit: TimeUnit, purchase: JsDate, itemLogs: seq<ServiceLog>, today: ValidDate)
    : (r: Result<Assessment, QueryError>)
    ensures r.Success? <==> TimeBasis(purchase, ServiceDates(itemLogs)).Success?
    ensures r.Failure? ==> r.error == InternalError
    ensures r.Success? ==> r.value.TimeAssessment? && r.value.item == item
  {
    var lastAction := TimeBasis(purchase, ServiceDates(itemLogs));
    if lastAction.Failure? then Failure(InternalError)
    else
      var dueDate := Advance(lastAction.value, amount, unit);
      Success(TimeAssessment(item, TimeLabel(lastAction.value, purchase.date), dueDate, DayNumber(dueDate) - DayNumber(today)))
  }

  /**
   What a time assessment reports: the basis is labelled as the purchase
   date exactly when it is the purchase date and as the last service
   otherwise, the due date is the basis advanced by the interval and lies
   after it when the interval is positive, the days remaining are the days
   from today to the due date, and the item is due exactly when today is
   not before the due date.
   */
  lemma TimeAssessmentMeaning(item: string, amount: int, unit: TimeUnit, purchase: JsDate, itemLogs: seq<ServiceLog>, today: ValidDate)
    requires AssessTime(item, amount, unit, purchase, itemLogs, today).Success?
    ensures var basis := TimeBasis(purchase, ServiceDates(itemLogs)).value;
            var a := AssessTime(item, amount, unit, purchase, itemLogs, today).value;
            && (a.basis == PurchaseDate(basis) <==> basis == purchase.date)
            && (basis != purchase.date ==> a.basis == LastServiceDate(basis))
            && a.dueDate == Advance(basis, amount, unit)
            && a.daysRemaining == DayNumber(a.dueDate) - DayNumber(today)
            && (amount > 0 ==> Precedes(basis, a.dueDate))
            && (IsDue(a) <==> !Precedes(today, a.dueDate))
  {
    var basis := TimeBasis(purchase, ServiceDates(itemLogs)).value;
    var a := AssessTime(item, amount, unit, purchase, itemLogs, today).value;
    if amount > 0 {
      AdvanceIsLater(basis, amount, unit);
    }
    DayNumberOrder(today, a.dueDate);
  }

  /**
   The assessment of a mileage rule (lines 90-113). The basis is labelled
   "purchase (0 km)" exactly when the highest matching mileage is 0.
   */
  function AssessMileage(item: string, distance: int, itemLogs: seq<ServiceLog>, currentMileage: int): (r: Assessment)
    ensures r.MileageAssessment? && r.item == item
    ensures r.kmRemaining == r.dueMileage - currentMileage
  {
    var lastAction := HighestMileage(itemLogs);
    var dueMileage := lastAction + distance;
    var basis := if lastAction == 0 then PurchaseOdometer else LastServiceOdometer(lastAction);
    MileageAssessment(item, basis, dueMileage, dueMileage - currentMileage)
  }

  /** One iteration of the rule loop: the rule's own records, then its branch. */
  function Assess(rule: Rule, purchase: JsDate, logs: seq<ServiceLog>, currentMileage: int, today: ValidDate)
    : (r: Result<Assessment, QueryError>)
    ensures r.Failure? ==> r.error == InternalError && rule.schedule.Every?
    ensures r.Success? ==> r.value.item == rule.name && (r.value.TimeAssessment? <==> rule.schedule.Every?)
  {
    var itemLogs := ItemLogs(logs, rule.name);
    match rule.schedule
    case Every(amount, unit) => AssessTime(rule.name, amount, unit, purchase, itemLogs, today)
    case EveryKm(distance) => Success(AssessMileage(rule.name, distance, itemLogs, currentMileage))
  }

  /** The signed days or kilometres left. */
  function Remaining(a: Assessment): int {
    match a
    case TimeAssessment(_, _, _, days) => days
    case MileageAssessment(_, _, _, km) => km
  }

  /** An item is due when nothing is left (lines 77 and 103). */
  predicate IsDue(a: Assessment) {
    Remaining(a) <= 0
  }

  /** The assessment of a time rule, reported in `timeBased`. */
  predicate IsTimeAssessment(a: Assessment) {
    a.TimeAssessment?
  }

  /** The assessment of a mileage rule, reported in `mileageBased`. */
  predicate IsMileageAssessment(a: Assessment) {
    a.MileageAssessment?
  }

  /**
   What a mileage rule reports (lines 92-105): the basis is the highest
   mileage among the records carrying the rule's name, or 0 without one;
   the due mileage lies the rule's distance beyond it; the label names the
   purchase exactly when the basis is 0, and otherwise the last service
   with the basis mileage; and the item is due exactly when the current
   mileage has reached the due mileage.
   */
  lemma MileageRuleMeaning(rule: Rule, purchase: JsDate, logs: seq<ServiceLog>, currentMileage: int, today: ValidDate)
    requires rule.schedule.EveryKm?
    ensures Assess(rule, purchase, logs, currentMileage, today).Success?
    ensures var a := Assess(rule, purchase, logs, currentMileage, today).value;
            var basis := HighestMileage(ItemLogs(logs, rule.name));
            && 0 <= basis
            && (forall l :: l in logs && l.itemName == rule.name ==> l.mileage <= basis)
            && (basis == 0 || exists l :: l in logs && l.itemName == rule.name && l.mileage == basis)
            && a.dueMileage == basis + rule.schedule.distance
            && (a.basis == PurchaseOdometer <==> basis == 0)
            && (basis != 0 ==> a.basis == LastServiceOdometer(basis))
            && (IsDue(a) <==> a.dueMileage <= currentMileage)
  {
    var itemLogs := ItemLogs(logs, rule.name);
    ItemLogsMembers(logs, rule.name);
    var basis := HighestMileage(itemLogs);
    forall l | l in logs && l.itemName == rule.name
      ensures l.mileage <= basis
    {
      assert l in itemLogs;
    }
    if basis != 0 {
      var i :| 0 <= i < |itemLogs| && itemLogs[i].mileage == basis;
      assert itemLogs[i] in logs;
    }
  }

  /**
   The basis of a time rule in terms of the log (lines 57-60): it is the
   purchase date or the parsed date of a record carrying the rule's name,
   and no such date lies after it.
   */
  lemma TimeRuleBasis(rule: Rule, purchase: JsDate, logs: seq<ServiceLog>, currentMileage: int, today: ValidDate)
    requires rule.schedule.Every? && Assess(rule, purchase, logs, currentMileage, today).Success?
    ensures purchase.LocalDate?
    ensures var basis := TimeBasis(purchase, ServiceDates(ItemLogs(logs, rule.name))).value;
            && DayNumber(purchase.date) <= DayNumber(basis)
            && (forall l :: l in logs && l.itemName == rule.name ==>
                  ParseDate(l.maintenanceDate).LocalDate? && DayNumber(ParseDate(l.maintenanceDate).date) <= DayNumber(basis))
            && (basis == purchase.date ||
                exists l :: l in logs && l.itemName == rule.name && ParseDate(l.maintenanceDate) == LocalDate(basis))
  {
    var itemLogs := ItemLogs(logs, rule.name);
    var dates := ServiceDates(itemLogs);
    var basis := TimeBasis(purchase, dates).value;
    ItemLogsMembers(logs, rule.name);
    ServiceDatesParse(itemLogs);
    TimeBasisIsGiven(purchase, dates);
    forall l | l in logs && l.itemName == rule.name
      ensures ParseDate(l.maintenanceDate).LocalDate? && DayNumber(ParseDate(l.maintenanceDate).date) <= DayNumber(basis)
    {
      var i :| 0 <= i < |itemLogs| && itemLogs[i] == l;
      assert dates[i] == ParseDate(l.maintenanceDate);
    }
    if basis != purchase.date {
      var i :| 0 <= i < |dates| && dates[i] == LocalDate(basis);
      assert itemLogs[i] in logs;
    }
  }

  /**
   A rule can be assessed unless it is a time rule and the purchase date or
   the date of one of its records is null or not a date.
   */
  lemma AssessSucceedsIff(rule: Rule, purchase: JsDate, logs: seq<ServiceLog>, currentMileage: int, today: ValidDate)
    ensures Assess(rule, purchase, logs, currentMileage, today).Success? <==>
            (rule.schedule.Every? ==>
               purchase.LocalDate? &&
               forall l :: l in logs && l.itemName == rule.name ==> ParseDate(l.maintenanceDate).LocalDate?)
  {
    if rule.schedule.Every? {
      var itemLogs := ItemLogs(logs, rule.name);
      var dates := ServiceDates(itemLogs);
      ItemLogsMembers(logs, rule.name);
      ServiceDatesParse(itemLogs);
      assert (forall i :: 0 <= i < |dates| ==> dates[i].LocalDate?) <==>
             (forall l :: l in itemLogs ==> ParseDate(l.maintenanceDate).LocalDate?) by {
        if forall i :: 0 <= i < |dates| ==> dates[i].LocalDate? {
          forall l | l in itemLogs ensures ParseDate(l.maintenanceDate).LocalDate? {
            var i :| 0 <= i < |itemLogs| && itemLogs[i] == l;
            assert dates[i].LocalDate?;
          }
        }
      }
    }
  }

  /** `allLogs.filter` distributes over concatenation. */
  lemma {:induction false} ItemLogsAppend(a: seq<ServiceLog>, b: seq<ServiceLog>, name: string)
    ensures ItemLogs(a + b, name) == ItemLogs(a, name) + ItemLogs(b, name)
  {
    if a != [] {
      var ab := a + b;
      ItemLogsAppend(a[1..], b, name);
      assert ab[0] == a[0] && ab[1..] == a[1..] + b;
      var head := if a[0].itemName == name then [a[0]] else [];
      assert ItemLogs(ab, name) == head + ItemLogs(a[1..] + b, name);
      assert ItemLogs(a, name) == head + ItemLogs(a[1..], name);
    } else {
      assert a + b == b;
    }
  }

  /** Two logs with the same members hold the same records of each item. */
  lemma ItemLogsAlike(a: seq<ServiceLog>, b: seq<ServiceLog>, name: string)
    requires forall l :: l in a <==> l in b
    ensures forall l :: l in ItemLogs(a, name) <==> l in ItemLogs(b, name)
  {
    ItemLogsMembers(a, name);
    ItemLogsMembers(b, name);
  }

  /** Two record lists with the same members parse to service dates with the same members. */
  lemma ServiceDatesAlike(a: seq<ServiceLog>, b: seq<ServiceLog>)
    requires forall l :: l in a <==> l in b
    ensures forall d :: d in ServiceDates(a) <==> d in ServiceDates(b)
  {
    var x, y := ServiceDates(a), ServiceDates(b);
    ServiceDatesParse(a);
    ServiceDatesParse(b);
    forall d | d in x ensures d in y {
      var i :| 0 <= i < |x| && x[i] == d;
      assert a[i] in b;
      var j :| 0 <= j < |b| && b[j] == a[i];
      assert y[j] == d;
    }
    forall d | d in y ensures d in x {
      var j :| 0 <= j < |y| && y[j] == d;
      assert b[j] in a;
      var i :| 0 <= i < |a| && a[i] == b[j];
      assert x[i] == d;
    }
  }

  /** A time assessment depends on the set of the item's records only. */
  lemma AssessTimeIgnoresOrder(item: string, amount: int, unit: TimeUnit, purchase: JsDate,
                               x: seq<ServiceLog>, y: seq<ServiceLog>, today: ValidDate)
    requires forall l :: l in x <==> l in y
    ensures AssessTime(item, amount, unit, purchase, x, today) == AssessTime(item, amount, unit, purchase, y, today)
  {
    var dx, dy := ServiceDates(x), ServiceDates(y);
    ServiceDatesAlike(x, y);
    TimeBasisIgnoresOrder(purchase, dx, dy);
    assert TimeBasis(purchase, dx) == TimeBasis(purchase, dy);
  }

  /** A rule's assessment depends on the set of records only, not on their order or repetitions. */
  lemma AssessIgnoresLogOrder(rule: Rule, purchase: JsDate, a: seq<ServiceLog>, b: seq<ServiceLog>,
                              currentMileage: int, today: ValidDate)
    requires forall l :: l in a <==> l in b
    ensures Assess(rule, purchase, a, currentMileage, today) == Assess(rule, purchase, b, currentMileage, today)
  {
    var x, y := ItemLogs(a, rule.name), ItemLogs(b, rule.name);
    ItemLogsAlike(a, b, rule.name);
    match rule.schedule {
      case Every(amount, unit) =>
        AssessTimeIgnoresOrder(rule.name, amount, unit, purchase, x, y, today);
      case EveryKm(_) =>
        HighestMileageIgnoresOrder(x, y);
    }
  }

  /**
   The outcomes of a loop whose body may throw, gathered the way the loop
   sees them: all values when no iteration throws, otherwise the first
   error.
   */
  function Collect<T>(outcomes: seq<Result<T, QueryError>>): (r: Result<seq<T>, QueryError>)
    ensures r.Success? ==> |r.value| == |outcomes|
  {
    if outcomes == [] then Success([])
    else if outcomes[0].Failure? then Failure(outcomes[0].error)
    else
      var rest := Collect(outcomes[1..]);
      if rest.Failure? then rest else Success([outcomes[0].value] + rest.value)
  }

  /**
   Gathering succeeds exactly when every outcome does, and then keeps each
   value at its position; a failure is one of the outcomes' errors.
   */
  lemma {:induction false} CollectMeaning<T>(outcomes: seq<Result<T, QueryError>>)
    ensures Collect(outcomes).Success? <==> forall i :: 0 <= i < |outcomes| ==> outcomes[i].Success?
    ensures Collect(outcomes).Success? ==>
              forall i :: 0 <= i < |outcomes| ==> outcomes[i] == Success(Collect(outcomes).value[i])
    ensures Collect(outcomes).Failure? ==>
              exists i :: 0 <= i < |outcomes| && outcomes[i] == Failure(Collect(outcomes).error)
  {
    if outcomes != [] {
      var tail := outcomes[1..];
      CollectMeaning(tail);
      assert forall i :: 1 <= i < |outcomes| ==> outcomes[i] == tail[i - 1];
      var r := Collect(outcomes);
      if r.Failure? && outcomes[0].Success? {
        var j :| 0 <= j < |tail| && tail[j] == Failure(r.error);
        assert outcomes[j + 1] == tail[j];
      }
    }
  }

  /** Each rule's outcome, in catalog order. */
  function Outcomes(rules: seq<Rule>, purchase: JsDate, logs: seq<ServiceLog>, currentMileage: int, today: ValidDate)
    : seq<Result<Assessment, QueryError>>
  {
    seq(|rules|, i requires 0 <= i < |rules| => Assess(rules[i], purchase, logs, currentMileage, today))
  }

  /**
   The assessments of `rules`, rule by rule. They exist exactly when every
   rule can be assessed, and then the i-th is the i-th rule's; otherwise the
   endpoint answers with an internal error.
   */
  function Assessments(rules: seq<Rule>, purchase: JsDate, logs: seq<ServiceLog>, currentMileage: int, today: ValidDate)
    : (r: Result<seq<Assessment>, QueryError>)
    ensures r.Success? <==> forall i :: 0 <= i < |rules| ==> Assess(rules[i], purchase, logs, currentMileage, today).Success?
    ensures r.Success? ==>
              |r.value| == |rules| &&
              forall i :: 0 <= i < |rules| ==> Assess(rules[i], purchase, logs, currentMileage, today) == Success(r.value[i])
    ensures r.Failure? ==> r.error == InternalError
  {
    var outcomes := Outcomes(rules, purchase, logs, currentMileage, today);
    CollectMeaning(outcomes);
    assert forall i :: 0 <= i < |rules| ==> outcomes[i] == Assess(rules[i], purchase, logs, currentMileage, today);
    Collect(outcomes)
  }

  /** The suggestions: one per due assessment, in catalog order. */
  function Suggestions(assessments: seq<Assessment>): seq<Suggestion> {
    if assessments == [] then []
    else
      var a := assessments[|assessments| - 1];
      Suggestions(assessments[..|assessments| - 1]) + (if IsDue(a) then [Suggestion(a.item, a.basis)] else [])
  }

  /** The time-based debug lines: one per time assessment, in catalog order. */
  function TimeEntries(assessments: seq<Assessment>): seq<TimeEntry> {
    if assessments == [] then []
    else
      var a := assessments[|assessments| - 1];
      TimeEntries(assessments[..|assessments| - 1]) +
        (if a.TimeAssessment? then [TimeEntry(a.item, a.dueDate, a.basis, Clamp(a.daysRemaining))] else [])
  }

  /** The mileage-based debug lines: one per mileage assessment, in catalog order. */
  function MileageEntries(assessments: seq<Assessment>): seq<MileageEntry> {
    if assessments == [] then []
    else
      var a := assessments[|assessments| - 1];
      MileageEntries(assessments[..|assessments| - 1]) +
        (if a.MileageAssessment? then [MileageEntry(a.item, a.dueMileage, a.basis, Clamp(a.kmRemaining))] else [])
  }

  /** The names of the time rules, in catalog order. */
  function TimeRuleNames(rules: seq<Rule>): seq<string> {
    if rules == [] then []
    else
      var rule := rules[|rules| - 1];
      TimeRuleNames(rules[..|rules| - 1]) + (if rule.schedule.Every? then [rule.name] else [])
  }

  /** The names of the mileage rules, in catalog order. */
  function MileageRuleNames(rules: seq<Rule>): seq<string> {
    if rules == [] then []
    else
      var rule := rules[|rules| - 1];
      MileageRuleNames(rules[..|rules| - 1]) + (if rule.schedule.EveryKm? then [rule.name] else [])
  }

  /**
   Assessments made rule by rule give exactly one debug line per rule: in
   the time list for a time rule, in the mileage list for a mileage rule,
   each list in catalog order.
   */
  lemma {:induction false} EntriesFollowRules(rules: seq<Rule>, assessments: seq<Assessment>)
    requires |assessments| == |rules|
    requires forall i :: 0 <= i < |rules| ==>
               assessments[i].item == rules[i].name && (assessments[i].TimeAssessment? <==> rules[i].schedule.Every?)
    ensures |TimeEntries(assessments)| == |TimeRuleNames(rules)|
    ensures forall j :: 0 <= j < |TimeEntries(assessments)| ==> TimeEntries(assessments)[j].item == TimeRuleNames(rules)[j]
    ensures |MileageEntries(assessments)| == |MileageRuleNames(rules)|
    ensures forall j :: 0 <= j < |MileageEntries(assessments)| ==>
              MileageEntries(assessments)[j].item == MileageRuleNames(rules)[j]
    ensures |TimeEntries(assessments)| + |MileageEntries(assessments)| == |rules|
  {
    if rules != [] {
      var n := |rules| - 1;
      assert forall i :: 0 <= i < n ==> assessments[..n][i] == assessments[i] && rules[..n][i] == rules[i];
      EntriesFollowRules(rules[..n], assessments[..n]);
    }
  }

  /** The positions of the elements of `s` that `keep` selects, in increasing order. */
  function Positions<T>(s: seq<T>, keep: T -> bool): seq<int> {
    if s == [] then []
    else
      var n := |s| - 1;
      Positions(s[..n], keep) + (if keep(s[n]) then [n] else [])
  }

  /** The selected positions lie in `s`, select what `keep` accepts, and increase strictly. */
  lemma {:induction false} PositionsAscend<T>(s: seq<T>, keep: T -> bool)
    ensures forall j :: 0 <= j < |Positions(s, keep)| ==> 0 <= Positions(s, keep)[j] < |s|
    ensures forall j :: 0 <= j < |Positions(s, keep)| ==> keep(s[Positions(s, keep)[j]])
    ensures forall j, k :: 0 <= j < k < |Positions(s, keep)| ==> Positions(s, keep)[j] < Positions(s, keep)[k]
  {
    if s != [] {
      var n := |s| - 1;
      var prefix := s[..n];
      PositionsAscend(prefix, keep);
      var all, before := Positions(s, keep), Positions(prefix, keep);
      assert all == before + (if keep(s[n]) then [n] else []);
      assert forall j :: 0 <= j < |before| ==> all[j] == before[j] && s[before[j]] == prefix[before[j]];
    }
  }

  /** Every position whose element `keep` accepts is selected. */
  lemma {:induction false} PositionsComplete<T>(s: seq<T>, keep: T -> bool)
    ensures forall i :: 0 <= i < |s| && keep(s[i]) ==> i in Positions(s, keep)
  {
    if s != [] {
      var n := |s| - 1;
      var prefix := s[..n];
      PositionsComplete(prefix, keep);
      assert forall i :: 0 <= i < n ==> prefix[i] == s[i];
    }
  }

  /** The j-th suggestion is that of the assessment at the j-th due position. */
  lemma {:induction false} SuggestionsAtDueIndices(assessments: seq<Assessment>)
    ensures |Suggestions(assessments)| == |Positions(assessments, IsDue)|
    ensures forall j :: 0 <= j < |Positions(assessments, IsDue)| ==> 0 <= Positions(assessments, IsDue)[j] < |assessments|
    ensures forall j :: 0 <= j < |Positions(assessments, IsDue)| ==>
              var a := assessments[Positions(assessments, IsDue)[j]];
              Suggestions(assessments)[j] == Suggestion(a.item, a.basis)
  {
    if assessments != [] {
      var n := |assessments| - 1;
      var prefix, a := assessments[..n], assessments[n];
      SuggestionsAtDueIndices(prefix);
      var due, s := Positions(assessments, IsDue), Suggestions(assessments);
      var dueBefore, before := Positions(prefix, IsDue), Suggestions(prefix);
      assert due == dueBefore + (if IsDue(a) then [n] else []);
      assert s == before + (if IsDue(a) then [Suggestion(a.item, a.basis)] else []);
      assert forall j :: 0 <= j < |dueBefore| ==>
        due[j] == dueBefore[j] && s[j] == before[j] && assessments[due[j]] == prefix[due[j]];
    }
  }

  /**
   The suggestions are those of the due assessments, one each, in the
   order of the assessments: the j-th suggestion belongs to the j-th due
   position, the due positions increase strictly, and every due
   assessment's position is among them.
   */
  lemma {:induction false} SuggestionsAreDue(assessments: seq<Assessment>)
    ensures |Suggestions(assessments)| == |Positions(assessments, IsDue)|
    ensures forall j :: 0 <= j < |Positions(assessments, IsDue)| ==> 0 <= Positions(assessments, IsDue)[j] < |assessments|
    ensures forall j :: 0 <= j < |Positions(assessments, IsDue)| ==>
              var a := assessments[Positions(assessments, IsDue)[j]];
              IsDue(a) && Suggestions(assessments)[j] == Suggestion(a.item, a.basis)
    ensures forall j, k :: 0 <= j < k < |Positions(assessments, IsDue)| ==>
              Positions(assessments, IsDue)[j] < Positions(assessments, IsDue)[k]
    ensures forall i :: 0 <= i < |assessments| && IsDue(assessments[i]) ==> i in Positions(assessments, IsDue)
  {
    PositionsAscend(assessments, IsDue);
    PositionsComplete(assessments, IsDue);
    SuggestionsAtDueIndices(assessments);
  }

  /**
   The j-th time-based debug line reports the assessment at the j-th time
   position: its item, due date, basis and days remaining clamped at 0.
   */
  lemma {:induction false} TimeEntriesAtPositions(assessments: seq<Assessment>)
    ensures |TimeEntries(assessments)| == |Positions(assessments, IsTimeAssessment)|
    ensures forall j :: 0 <= j < |Positions(assessments, IsTimeAssessment)| ==>
              0 <= Positions(assessments, IsTimeAssessment)[j] < |assessments|
    ensures forall j :: 0 <= j < |Positions(assessments, IsTimeAssessment)| ==>
              var a := assessments[Positions(assessments, IsTimeAssessment)[j]];
              a.TimeAssessment? && TimeEntries(assessments)[j] == TimeEntry(a.item, a.dueDate, a.basis, Clamp(a.daysRemaining))
  {
    if assessments != [] {
      var n := |assessments| - 1;
      var prefix, a := assessments[..n], assessments[n];
      TimeEntriesAtPositions(prefix);
      var at, e := Positions(assessments, IsTimeAssessment), TimeEntries(assessments);
      var atBefore, before := Positions(prefix, IsTimeAssessment), TimeEntries(prefix);
      assert at == atBefore + (if a.TimeAssessment? then [n] else []);
      assert e == before + (if a.TimeAssessment? then [TimeEntry(a.item, a.dueDate, a.basis, Clamp(a.daysRemaining))] else []);
      assert forall j :: 0 <= j < |atBefore| ==>
        at[j] == atBefore[j] && e[j] == before[j] && assessments[at[j]] == prefix[at[j]];
    }
  }

  /**
   The j-th mileage-based debug line reports the assessment at the j-th
   mileage position: its item, due mileage, basis and kilometres remaining
   clamped at 0.
   */
  lemma {:induction false} MileageEntriesAtPositions(assessments: seq<Assessment>)
    ensures |MileageEntries(assessments)| == |Positions(assessments, IsMileageAssessment)|
    ensures forall j :: 0 <= j < |Positions(assessments, IsMileageAssessment)| ==>
              0 <= Positions(assessments, IsMileageAssessment)[j] < |assessments|
    ensures forall j :: 0 <= j < |Positions(assessments, IsMileageAssessment)| ==>
              var a := assessments[Positions(assessments, IsMileageAssessment)[j]];
              a.MileageAssessment? &&
              MileageEntries(assessments)[j] == MileageEntry(a.item, a.dueMileage, a.basis, Clamp(a.kmRemaining))
  {
    if assessments != [] {
      var n := |assessments| - 1;
      var prefix, a := assessments[..n], assessments[n];
      MileageEntriesAtPositions(prefix);
      var at, e := Positions(assessments, IsMileageAssessment), MileageEntries(assessments);
      var atBefore, before := Positions(prefix, IsMileageAssessment), MileageEntries(prefix);
      assert at == atBefore + (if a.MileageAssessment? then [n] else []);
      assert e == before + (if a.MileageAssessment? then [MileageEntry(a.item, a.dueMileage, a.basis, Clamp(a.kmRemaining))] else []);
      assert forall j :: 0 <= j < |atBefore| ==>
        at[j] == atBefore[j] && e[j] == before[j] && assessments[at[j]] == prefix[at[j]];
    }
  }

  /** The response for a purchase date as `parseDate` returned it. */
  function ReportFor(rules: seq<Rule>, purchase: JsDate, logs: seq<ServiceLog>, currentMileage: int, today: ValidDate)
    : Result<Report, QueryError>
  {
    match Assessments(rules, purchase, logs, currentMileage, today)
    case Failure(e) => Failure(e)
    case Success(assessments) =>
      Success(Report(Suggestions(assessments),
                     DebugInfo(today, TimeEntries(assessments), MileageEntries(assessments))))
  }

  /**
   A report carries today's date and one debug line per rule of the
   catalog (lines 82-86 and 108-112): the time rules' lines, then
   separately the mileage rules' lines, each in catalog order.
   */
  lemma ReportEntries(rules: seq<Rule>, purchase: JsDate, logs: seq<ServiceLog>, currentMileage: int, today: ValidDate)
    requires ReportFor(rules, purchase, logs, currentMileage, today).Success?
    ensures var info := ReportFor(rules, purchase, logs, currentMileage, today).value.debugInfo;
            && info.queryDate == today
            && |info.timeBased| == |TimeRuleNames(rules)|
            && (forall j :: 0 <= j < |info.timeBased| ==> info.timeBased[j].item == TimeRuleNames(rules)[j])
            && |info.mileageBased| == |MileageRuleNames(rules)|
            && (forall j :: 0 <= j < |info.mileageBased| ==> info.mileageBased[j].item == MileageRuleNames(rules)[j])
  {
    var assessments := Assessments(rules, purchase, logs, currentMileage, today).value;
    forall i | 0 <= i < |rules|
      ensures assessments[i].item == rules[i].name && (assessments[i].TimeAssessment? <==> rules[i].schedule.Every?)
    {
      assert Assess(rules[i], purchase, logs, currentMileage, today) == Success(assessments[i]);
    }
    EntriesFollowRules(rules, assessments);
  }

  /**
   The time-based debug lines of a report (lines 82-86): the j-th line
   belongs to the j-th time rule of the catalog and reports that rule's
   name with its assessment's due date, basis and days remaining clamped
   at 0; every time rule has exactly one line.
   */
  lemma ReportTimeLines(rules: seq<Rule>, purchase: JsDate, logs: seq<ServiceLog>, currentMileage: int, today: ValidDate)
    requires ReportFor(rules, purchase, logs, currentMileage, today).Success?
    ensures var assessments := Assessments(rules, purchase, logs, currentMileage, today).value;
            var lines := ReportFor(rules, purchase, logs, currentMileage, today).value.debugInfo.timeBased;
            && |assessments| == |rules|
            && (forall i :: 0 <= i < |rules| ==>
                  Assess(rules[i], purchase, logs, currentMileage, today) == Success(assessments[i]))
            && var at := Positions(assessments, IsTimeAssessment);
            && |lines| == |at|
            && (forall j :: 0 <= j < |at| ==> 0 <= at[j] < |rules|)
            && (forall j :: 0 <= j < |at| ==>
                  var a := assessments[at[j]];
                  rules[at[j]].schedule.Every? && a.TimeAssessment? &&
                  lines[j] == TimeEntry(rules[at[j]].name, a.dueDate, a.basis, Clamp(a.daysRemaining)))
            && (forall j, k :: 0 <= j < k < |at| ==> at[j] < at[k])
            && (forall i :: 0 <= i < |rules| && rules[i].schedule.Every? ==> i in at)
  {
    var assessments := Assessments(rules, purchase, logs, currentMileage, today).value;
    forall i | 0 <= i < |rules|
      ensures assessments[i].item == rules[i].name && (assessments[i].TimeAssessment? <==> rules[i].schedule.Every?)
    {
      assert Assess(rules[i], purchase, logs, currentMileage, today) == Success(assessments[i]);
    }
    PositionsAscend(assessments, IsTimeAssessment);
    PositionsComplete(assessments, IsTimeAssessment);
    TimeEntriesAtPositions(assessments);
  }

  /**
   The mileage-based debug lines of a report (lines 108-112): the j-th
   line belongs to the j-th mileage rule of the catalog and reports that
   rule's name with its assessment's due mileage, basis and kilometres
   remaining clamped at 0; every mileage rule has exactly one line.
   */
  lemma ReportMileageLines(rules: seq<Rule>, purchase: JsDate, logs: seq<ServiceLog>, currentMileage: int, today: ValidDate)
    requires ReportFor(rules, purchase, logs, currentMileage, today).Success?
    ensures var assessments := Assessments(rules, purchase, logs, currentMileage, today).value;
            var lines := ReportFor(rules, purchase, logs, currentMileage, today).value.debugInfo.mileageBased;
            && |assessments| == |rules|
            && (forall i :: 0 <= i < |rules| ==>
                  Assess(rules[i], purchase, logs, currentMileage, today) == Success(assessments[i]))
            && var at := Positions(assessments, IsMileageAssessment);
            && |lines| == |at|
            && (forall j :: 0 <= j < |at| ==> 0 <= at[j] < |rules|)
            && (forall j :: 0 <= j < |at| ==>
                  var a := assessments[at[j]];
                  rules[at[j]].schedule.EveryKm? && a.MileageAssessment? &&
                  lines[j] == MileageEntry(rules[at[j]].name, a.dueMileage, a.basis, Clamp(a.kmRemaining)))
            && (forall j, k :: 0 <= j < k < |at| ==> at[j] < at[k])
            && (forall i :: 0 <= i < |rules| && rules[i].schedule.EveryKm? ==> i in at)
  {
    var assessments := Assessments(rules, purchase, logs, currentMileage, today).value;
    forall i | 0 <= i < |rules|
      ensures assessments[i].item == rules[i].name && (assessments[i].MileageAssessment? <==> rules[i].schedule.EveryKm?)
    {
      assert Assess(rules[i], purchase, logs, currentMileage, today) == Success(assessments[i]);
    }
    PositionsAscend(assessments, IsMileageAssessment);
    PositionsComplete(assessments, IsMileageAssessment);
    MileageEntriesAtPositions(assessments);
  }

  /**
   A report suggests the items of exactly the due rules (lines 77-79 and
   103-105), once each and in catalog order, with the basis of each rule's
   assessment.
   */
  lemma ReportSuggestions(rules: seq<Rule>, purchase: JsDate, logs: seq<ServiceLog>, currentMileage: int, today: ValidDate)
    requires ReportFor(rules, purchase, logs, currentMileage, today).Success?
    ensures var assessments := Assessments(rules, purchase, logs, currentMileage, today).value;
            var suggestions := ReportFor(rules, purchase, logs, currentMileage, today).value.suggestions;
            && |assessments| == |rules|
            && (forall i :: 0 <= i < |rules| ==>
                  Assess(rules[i], purchase, logs, currentMileage, today) == Success(assessments[i]))
            && var due := Positions(assessments, IsDue);
            && |suggestions| == |due|
            && (forall j :: 0 <= j < |due| ==> 0 <= due[j] < |rules|)
            && (forall j :: 0 <= j < |due| ==>
                  IsDue(assessments[due[j]]) && suggestions[j] == Suggestion(rules[due[j]].name, assessments[due[j]].basis))
            && (forall j, k :: 0 <= j < k < |due| ==> due[j] < due[k])
            && (forall i :: 0 <= i < |rules| && IsDue(assessments[i]) ==> i in due)
  {
    var assessments := Assessments(rules, purchase, logs, currentMileage, today).value;
    forall i | 0 <= i < |rules| ensures assessments[i].item == rules[i].name {
      assert Assess(rules[i], purchase, logs, currentMileage, today) == Success(assessments[i]);
    }
    SuggestionsAreDue(assessments);
  }

  /**
   The answer of the query endpoint for the stored purchase date
   (None when there is no car_info row), the stored log, the submitted
   current mileage and today's date.
   */
  function Query(rules: seq<Rule>, purchaseDate: Option<string>, logs: seq<ServiceLog>, currentMileage: int, today: ValidDate)
    : Result<Report, QueryError>
  {
    match purchaseDate
    case None => Failure(NoPurchaseDate)
    case Some(text) => ReportFor(rules, ParseDate(text), logs, currentMileage, today)
  }

  /** Rules assessed alike under two logs give the same answer. */
  lemma ReportForAssessedAlike(rules: seq<Rule>, purchase: JsDate, a: seq<ServiceLog>, b: seq<ServiceLog>,
                               currentMileage: int, today: ValidDate)
    requires forall i :: 0 <= i < |rules| ==>
               Assess(rules[i], purchase, a, currentMileage, today) == Assess(rules[i], purchase, b, currentMileage, today)
    ensures ReportFor(rules, purchase, a, currentMileage, today) == ReportFor(rules, purchase, b, currentMileage, today)
  {
    assert Outcomes(rules, purchase, a, currentMileage, today) == Outcomes(rules, purchase, b, currentMileage, today);
  }

  /**
   The answer depends on the set of log records only: the order the
   database returns them in (line 37) and repeated rows change nothing.
   */
  lemma QueryIgnoresLogOrder(rules: seq<Rule>, purchaseDate: Option<string>, a: seq<ServiceLog>, b: seq<ServiceLog>,
                             currentMileage: int, today: ValidDate)
    requires forall l :: l in a <==> l in b
    ensures Query(rules, purchaseDate, a, currentMileage, today) == Query(rules, purchaseDate, b, currentMileage, today)
  {
    if purchaseDate.Some? {
      var purchase := ParseDate(purchaseDate.value);
      forall i | 0 <= i < |rules|
        ensures Assess(rules[i], purchase, a, currentMileage, today) == Assess(rules[i], purchase, b, currentMileage, today)
      {
        AssessIgnoresLogOrder(rules[i], purchase, a, b, currentMileage, today);
      }
      ReportForAssessedAlike(rules, purchase, a, b, currentMileage, today);
    }
  }

  /** A record whose name no rule carries changes nothing in the answer (line 52). */
  lemma QueryIgnoresUnmatchedLog(rules: seq<Rule>, purchaseDate: Option<string>, before: seq<ServiceLog>, record: ServiceLog,
                                 after: seq<ServiceLog>, currentMileage: int, today: ValidDate)
    requires forall i :: 0 <= i < |rules| ==> rules[i].name != record.itemName
    ensures Query(rules, purchaseDate, before + [record] + after, currentMileage, today) ==
            Query(rules, purchaseDate, before + after, currentMileage, today)
  {
    if purchaseDate.Some? {
      var purchase := ParseDate(purchaseDate.value);
      forall i | 0 <= i < |rules|
        ensures Assess(rules[i], purchase, before + [record] + after, currentMileage, today) ==
                Assess(rules[i], purchase, before + after, currentMileage, today)
      {
        var name := rules[i].name;
        ItemLogsAppend(before + [record], after, name);
        ItemLogsAppend(before, [record], name);
        ItemLogsAppend(before, after, name);
        assert ItemLogs([record], name) == [] by {
          assert [record][1..] == [];
        }
        assert ItemLogs(before + [record] + after, name) == ItemLogs(before + after, name) by {
          assert ItemLogs(before + [record], name) == ItemLogs(before, name);
        }
      }
      ReportForAssessedAlike(rules, purchase, before + [record] + after, before + after, currentMileage, today);
    }
  }

  /** The purchase record saved with the purchase date affects no rule of the catalog. */
  lemma PurchaseRecordIgnored(purchaseDate: Option<string>, before: seq<ServiceLog>, record: ServiceLog,
                              after: seq<ServiceLog>, currentMileage: int, today: ValidDate)
    requires record.itemName == PurchaseRecordName
    ensures Query(MaintenanceRules, purchaseDate, before + [record] + after, currentMileage, today) ==
            Query(MaintenanceRules, purchaseDate, before + after, currentMileage, today)
  {
    forall i | 0 <= i < |MaintenanceRules| ensures MaintenanceRules[i].name != record.itemName {
      assert MaintenanceRules[i].name[0] != PurchaseRecordName[0];
    }
    QueryIgnoresUnmatchedLog(MaintenanceRules, purchaseDate, before, record, after, currentMileage, today);
  }

  /**
   Without a purchase date the answer is the missing-purchase-date error
   (lines 31-33); with one, the rules are evaluated, and the answer is a
   report exactly when every time rule finds the purchase date and the
   dates of its records to be dates.
   */
  lemma QueryOutcome(rules: seq<Rule>, purchaseDate: Option<string>, logs: seq<ServiceLog>, currentMileage: int, today: ValidDate)
    ensures Query(rules, purchaseDate, logs, currentMileage, today) == Failure(NoPurchaseDate) <==> purchaseDate.None?
    ensures Query(rules, purchaseDate, logs, currentMileage, today).Success? <==>
            purchaseDate.Some? &&
            forall i :: 0 <= i < |rules| && rules[i].schedule.Every? ==>
              ParseDate(purchaseDate.value).LocalDate? &&
              forall l :: l in logs && l.itemName == rules[i].name ==> ParseDate(l.maintenanceDate).LocalDate?
  {
    if purchaseDate.Some? {
      forall i | 0 <= i < |rules| {
        AssessSucceedsIff(rules[i], ParseDate(purchaseDate.value), logs, currentMileage, today);
      }
    }
  }

  /** One more assessment extends every output list by that assessment's lines only. */
  lemma OutputsStep(done: seq<Assessment>, a: Assessment)
    ensures Suggestions(done + [a]) == Suggestions(done) + (if IsDue(a) then [Suggestion(a.item, a.basis)] else [])
    ensures TimeEntries(done + [a]) == TimeEntries(done) +
              (if a.TimeAssessment? then [TimeEntry(a.item, a.dueDate, a.basis, Clamp(a.daysRemaining))] else [])
    ensures MileageEntries(done + [a]) == MileageEntries(done) +
              (if a.MileageAssessment? then [MileageEntry(a.item, a.dueMileage, a.basis, Clamp(a.kmRemaining))] else [])
  {
    assert (done + [a])[..|done|] == done;
  }

  /** A rule that cannot be assessed turns the whole answer into an internal error. */
  lemma ReportForFailure(rules: seq<Rule>, i: nat, purchase: JsDate, logs: seq<ServiceLog>, currentMileage: int, today: ValidDate)
    requires i < |rules| && Assess(rules[i], purchase, logs, currentMileage, today).Failure?
    ensures ReportFor(rules, purchase, logs, currentMileage, today) == Failure(InternalError)
  {
    var r := Assessments(rules, purchase, logs, currentMileage, today);
    assert !r.Success?;
  }

  /** When every rule is assessed, the answer lists their lines in catalog order. */
  lemma ReportForSuccess(rules: seq<Rule>, done: seq<Assessment>, purchase: JsDate, logs: seq<ServiceLog>,
                         currentMileage: int, today: ValidDate)
    requires |done| == |rules|
    requires forall k :: 0 <= k < |rules| ==> Assess(rules[k], purchase, logs, currentMileage, today) == Success(done[k])
    ensures ReportFor(rules, purchase, logs, currentMileage, today) ==
            Success(Report(Suggestions(done), DebugInfo(today, TimeEntries(done), MileageEntries(done))))
  {
    var all := Assessments(rules, purchase, logs, currentMileage, today);
    assert all.Success?;
    forall k | 0 <= k < |rules| ensures all.value[k] == done[k] {
      assert Assess(rules[k], purchase, logs, currentMileage, today) == Success(all.value[k]);
    }
    assert all.value == done;
  }

  /** The body of `onRequestPost` without its database and HTTP calls. */
  method Evaluate(rules: seq<Rule>, purchaseDate: Option<string>, logs: seq<ServiceLog>, currentMileage: int, today: ValidDate)
    returns (r: Result<Report, QueryError>)
    ensures r == Query(rules, purchaseDate, logs, currentMileage, today)
  {
    if purchaseDate.None? {
      return Failure(NoPurchaseDate);
    }
    var purchase := ParseDate(purchaseDate.value);
    r := EvaluateRules(rules, purchase, logs, currentMileage, today);
  }

  /** The rule loop of `onRequestPost` (lines 50-114). */
  method EvaluateRules(rules: seq<Rule>, purchase: JsDate, logs: seq<ServiceLog>, currentMileage: int, today: ValidDate)
    returns (r: Result<Report, QueryError>)
    ensures r == ReportFor(rules, purchase, logs, currentMileage, today)
  {
    var suggestions: seq<Suggestion> := [];
    var timeBased: seq<TimeEntry> := [];
    var mileageBased: seq<MileageEntry> := [];
    ghost var done: seq<Assessment> := [];
    for i := 0 to |rules|
      invariant |done| == i
      invariant forall k {:trigger Assess(rules[k], purchase, logs, currentMileage, today)} ::
                  0 <= k < i ==> Assess(rules[k], purchase, logs, currentMileage, today) == Success(done[k])
      invariant suggestions == Suggestions(done)
      invariant timeBased == TimeEntries(done)
      invariant mileageBased == MileageEntries(done)
    {
      var outcome := Assess(rules[i], purchase, logs, currentMileage, today);
      if outcome.Failure? {
        ReportForFailure(rules, i, purchase, logs, currentMileage, today);
        return Failure(InternalError);
      }
      var a := outcome.value;
      if Remaining(a) <= 0 {
        suggestions := suggestions + [Suggestion(a.item, a.basis)];
      }
      match a {
        case TimeAssessment(item, basis, dueDate, daysRemaining) =>
          timeBased := timeBased + [TimeEntry(item, dueDate, basis, if daysRemaining > 0 then daysRemaining else 0)];
        case MileageAssessment(item, basis, dueMileage, mileageRemaining) =>
          mileageBased := mileageBased + [MileageEntry(item, dueMileage, basis, if mileageRemaining > 0 then mileageRemaining else 0)];
      }
      OutputsStep(done, a);
      done := done + [a];
    }
    ReportForSuccess(rules, done, purchase, logs, currentMileage, today);
    return Success(Report(suggestions, DebugInfo(today, timeBased, mileageBased)));
  }
}
