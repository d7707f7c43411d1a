/**
 * The backend's metric registry. A registry keeps one collector per metric name; a collector
 * keeps the metrics of one type, each under its own label set, together with the reverse
 * map from metric to labels. A metric remembers the registry it is registered in, so that
 * hiding it, or registering it elsewhere, first takes it out of that registry.
 */
module Metrics {

  datatype MetricType = COUNTER | GAUGE | HISTOGRAM | SUMMARY | UNTYPED

  datatype MetricUnit =
    | NANOSECONDS | MICROSECONDS | MILLISECONDS | SECONDS | BYTES | ROWS | PERCENT | REQUESTS
    | OPERATIONS | BLOCKS | ROWSETS | CONNECTIONS | NOUNIT

  /** The name a unit is exported under; every unit has its own name. */
  function UnitName(u: MetricUnit): (s: string)
    ensures s == "nounit" <==> u == NOUNIT
    ensures |s| >= 4
  {
    match u
    case NANOSECONDS => "nanoseconds"
    case MICROSECONDS => "microseconds"
    case MILLISECONDS => "milliseconds"
    case SECONDS => "seconds"
    case BYTES => "bytes"
    case ROWS => "rows"
    case PERCENT => "percent"
    case REQUESTS => "requests"
    case OPERATIONS => "operations"
    case BLOCKS => "blocks"
    case ROWSETS => "rowsets"
    case CONNECTIONS => "connections"
    case NOUNIT => "nounit"
  }

  lemma UnitNameInjective(u: MetricUnit, v: MetricUnit)
    ensures UnitName(u) == UnitName(v) ==> u == v
  {
    if UnitName(u) == UnitName(v) {
      assert UnitName(u)[..2] == UnitName(v)[..2];
      assert UnitName(u)[|UnitName(u)| - 2] == UnitName(v)[|UnitName(v)| - 2];
    }
  }

  function TypeName(t: MetricType): string {
    match t
    case COUNTER => "counter"
    case GAUGE => "gauge"
    case HISTOGRAM => "histogram"
    case SUMMARY => "summary"
    case UNTYPED => "untyped"
  }

  datatype MetricLabels = MetricLabels(labels: seq<(string, string)>)

  /** The metrics of `ms` other than `m`. */
  function RemovedFrom(ms: map<MetricLabels, Metric>, m: Metric): (r: map<MetricLabels, Metric>)
    ensures r.Keys <= ms.Keys
    ensures forall l :: l in ms ==> (l in r <==> ms[l] != m)
    ensures forall l :: l in r ==> r[l] == ms[l]
  {
    map l | l in ms && ms[l] != m :: ms[l]
  }

  /** Registry contents without `m`, dropping the names whose collector becomes empty. */
  function Without(c: map<string, map<MetricLabels, Metric>>, m: Metric): (r: map<string, map<MetricLabels, Metric>>)
    ensures forall n :: n in r <==> n in c && RemovedFrom(c[n], m) != map[]
    ensures forall n :: n in r ==> r[n] == RemovedFrom(c[n], m)
  {
    map n | n in c && RemovedFrom(c[n], m) != map[] :: RemovedFrom(c[n], m)
  }

  /**
   * A collector: the metrics of one name, each under its own labels, with the reverse map
   * from metric to labels and the type its first metric fixed.
   */
  datatype MetricCollector = MetricCollector(
    metrics: map<MetricLabels, Metric>, metricLabels: map<Metric, MetricLabels>, collectorType: MetricType)
  {
    predicate Empty() { metrics == map[] }

    /** The two maps are inverse to each other. */
    ghost predicate Valid() {
      (forall l :: l in metrics ==> metrics[l] in metricLabels && metricLabels[metrics[l]] == l)
      && (forall m :: m in metricLabels ==> metricLabels[m] in metrics && metrics[metricLabels[m]] == m)
    }

    /** Whether a metric would be taken: the first one always, later ones of the same type under new labels. */
    predicate Accepts(labels: MetricLabels, metric: Metric) {
      (Empty() || metric.metricType == collectorType) && labels !in metrics
    }

    /**
     * add_metric: the first metric fixes the collector's type; a metric of another type, or
     * one under labels already taken, is refused and changes nothing else.
     */
    function AddMetric(labels: MetricLabels, metric: Metric): (r: (MetricCollector, bool))
      ensures r.1 <==> Accepts(labels, metric)
      ensures r.0.collectorType == if Empty() then metric.metricType else collectorType
      ensures r.0.metrics == if r.1 then metrics[labels := metric] else metrics
      ensures r.0.metricLabels ==
                if r.1 && metric !in metricLabels then metricLabels[metric := labels] else metricLabels
    {
      var c := if Empty() then this.(collectorType := metric.metricType) else this;
      if !Empty() && metric.metricType != collectorType then (c, false)
      else if labels in metrics then (c, false)
      else (c.(metrics := metrics[labels := metric],
               metricLabels := if metric in metricLabels then metricLabels else metricLabels[metric := labels]), true)
    }

    /** remove_metric: the metric leaves both maps; an unknown metric changes nothing. */
    function RemoveMetric(metric: Metric): (r: MetricCollector)
      ensures Valid() ==> r.Valid() && r.metrics == RemovedFrom(metrics, metric)
      ensures r.metricLabels == metricLabels - {metric} && r.collectorType == collectorType
    {
      if metric !in metricLabels then
        assert Valid() ==> metrics == RemovedFrom(metrics, metric);
        this
      else this.(metrics := metrics - {metricLabels[metric]}, metricLabels := metricLabels - {metric})
    }

    /** get_metric: the metric under exactly these labels, or null. */
    function GetMetric(labels: MetricLabels): (r: Metric?)
      ensures r != null <==> labels in metrics
      ensures r != null ==> r == metrics[labels]
    {
      if labels in metrics then metrics[labels] else null
    }
  }

  function NewCollector(): MetricCollector {
    MetricCollector(map[], map[], UNTYPED)
  }

  /** Adding a new metric and removing it again gives the collector back. */
  lemma AddThenRemove(c: MetricCollector, labels: MetricLabels, metric: Metric)
    requires c.Valid() && !c.Empty() && c.Accepts(labels, metric) && metric !in c.metricLabels
    ensures c.AddMetric(labels, metric).0.Valid()
    ensures c.AddMetric(labels, metric).0.RemoveMetric(metric) == c
  {
    var added := c.AddMetric(labels, metric).0;
    assert added.metrics - {labels} == c.metrics;
    assert added.metricLabels - {metric} == c.metricLabels;
  }

  /** A registry collector: consistent, non-empty, and all of its type. */
  ghost predicate Healthy(c: MetricCollector) {
    c.Valid() && !c.Empty() && forall l :: l in c.metrics ==> c.metrics[l].metricType == c.collectorType
  }

  /** The collectors once `m` is removed from each and the emptied ones are dropped. */
  function SweptAll(cs: map<string, MetricCollector>, m: Metric): (r: map<string, MetricCollector>)
    ensures r.Keys <= cs.Keys
    ensures forall n :: n in r ==> r[n] == cs[n].RemoveMetric(m)
  {
    map n | n in cs && !cs[n].RemoveMetric(m).Empty() :: cs[n].RemoveMetric(m)
  }

  function ContentsOf(cs: map<string, MetricCollector>): (c: map<string, map<MetricLabels, Metric>>)
    ensures c.Keys == cs.Keys
  {
    map n | n in cs :: cs[n].metrics
  }

  ghost function MembersOf(cs: map<string, MetricCollector>): set<Metric> {
    set n, m | n in cs && m in cs[n].metricLabels :: m
  }

  /** Removing a metric everywhere keeps the remaining collectors healthy. */
  lemma SweptAllHealthy(cs: map<string, MetricCollector>, m: Metric)
    requires forall n :: n in cs ==> Healthy(cs[n])
    ensures forall n :: n in SweptAll(cs, m) ==> Healthy(SweptAll(cs, m)[n])
  {
  }

  /** After the sweep the metric is held nowhere, and no other metric appeared. */
  lemma SweptAllMembers(cs: map<string, MetricCollector>, m: Metric)
    ensures MembersOf(SweptAll(cs, m)) <= MembersOf(cs) - {m}
  {
    var r := SweptAll(cs, m);
    forall x | x in MembersOf(r)
      ensures x in MembersOf(cs) - {m}
    {
      var n :| n in r && x in r[n].metricLabels;
      assert x in cs[n].metricLabels;
    }
  }

  /** The sweep describes exactly the registry contents without the metric. */
  lemma SweptAllContents(cs: map<string, MetricCollector>, m: Metric)
    requires forall n :: n in cs ==> cs[n].Valid()
    ensures ContentsOf(SweptAll(cs, m)) == Without(ContentsOf(cs), m)
  {
    var r := SweptAll(cs, m);
    assert ContentsOf(r).Keys == Without(ContentsOf(cs), m).Keys;
  }

  /**
   * The sweep's state: the collectors not in `pending` have lost `m`, the others are as they
   * were, and `toErase` names the swept collectors that became empty.
   */
  ghost predicate SweepState(c0: map<string, MetricCollector>, cs: map<string, MetricCollector>,
                             pending: set<string>, toErase: set<string>, m: Metric) {
    pending <= cs.Keys && cs.Keys == c0.Keys
    && (forall k :: k in cs ==> cs[k] == if k in pending then c0[k] else c0[k].RemoveMetric(m))
    && (forall k :: k in toErase <==> k in cs && k !in pending && cs[k].Empty())
  }

  lemma SweepStep(c0: map<string, MetricCollector>, cs: map<string, MetricCollector>,
                  pending: set<string>, toErase: set<string>, m: Metric, n: string)
    requires SweepState(c0, cs, pending, toErase, m) && n in pending
    ensures var cs' := cs[n := cs[n].RemoveMetric(m)];
            SweepState(c0, cs', pending - {n}, if cs'[n].Empty() then toErase + {n} else toErase, m)
  {
  }

  lemma SweepDone(c0: map<string, MetricCollector>, cs: map<string, MetricCollector>, toErase: set<string>, m: Metric)
    requires SweepState(c0, cs, {}, toErase, m)
    ensures cs - toErase == SweptAll(c0, m)
  {
  }

  /** A healthy or new collector that takes a metric it does not hold stays healthy. */
  lemma AddKeepsHealthy(c: MetricCollector, labels: MetricLabels, metric: Metric)
    requires Healthy(c) || c == NewCollector()
    requires metric !in c.metricLabels && c.Accepts(labels, metric)
    ensures Healthy(c.AddMetric(labels, metric).0)
  {
  }

  ghost predicate AllHealthy(cs: map<string, MetricCollector>) {
    forall n :: n in cs ==> Healthy(cs[n])
  }

  /**
   * Adding a metric no collector holds to the collector of `name` (a new one if there is none)
   * keeps every collector healthy, and the metric is the only one that can join.
   */
  lemma AddToCollectorsHealthy(cs: map<string, MetricCollector>, name: string, labels: MetricLabels, metric: Metric)
    requires forall n :: n in cs ==> Healthy(cs[n])
    requires metric !in MembersOf(cs)
    ensures var c := if name in cs then cs[name] else NewCollector();
            var r := c.AddMetric(labels, metric);
            AllHealthy(cs[name := r.0]) && MembersOf(cs[name := r.0]) <= MembersOf(cs) + (if r.1 then {metric} else {})
  {
    var c := if name in cs then cs[name] else NewCollector();
    if name in cs {
      assert metric in c.metricLabels ==> metric in MembersOf(cs);
    }
    var r := c.AddMetric(labels, metric);
    if r.1 {
      AddKeepsHealthy(c, labels, metric);
    }
    var cs' := cs[name := r.0];
    forall x | x in MembersOf(cs')
      ensures x in MembersOf(cs) + (if r.1 then {metric} else {})
    {
      var n :| n in cs' && x in cs'[n].metricLabels;
      if n != name {
        assert x in cs[n].metricLabels;
      } else if x != metric {
        assert x in cs[name].metricLabels;
      }
    }
  }

  class Metric {
    const metricType: MetricType
    var registry: MetricRegistry?

    constructor (t: MetricType)
      ensures metricType == t && registry == null
    {
      metricType := t;
      registry := null;
    }

    /** Takes the metric out of its registry, if any; once detached, hiding again does nothing. */
    method Hide()
      requires registry != null ==> registry.Valid()
      modifies this, registry
      ensures registry == null
      ensures old(registry) == null ==> unchanged(this)
      ensures old(registry) != null ==>
                old(registry).Valid() && this !in old(registry).Members()
                && old(registry).collectors == SweptAll(old(registry.collectors), this)
                && old(registry).Contents() == Without(old(registry.Contents()), this)
                && old(registry).hooks == old(registry.hooks)
    {
      if registry == null {
        return;
      }
      var owner := registry;
      owner.DeregisterLocked(this);
      assert this !in owner.Members();
      registry := null;
      assert owner.Valid();
    }
  }

  class MetricRegistry {
    var collectors: map<string, MetricCollector>
    var hooks: map<string, int>

    /** Every metric held by some collector. */
    ghost function Members(): set<Metric>
      reads this
    {
      MembersOf(collectors)
    }

    /** Healthy collectors; every metric held names this registry as its own. */
    ghost predicate Valid()
      reads this, Members()
    {
      (forall n :: n in collectors ==> Healthy(collectors[n]))
      && (forall m :: m in Members() ==> m.registry == this)
    }

    /** The metrics registered per name and labels. */
    function Contents(): map<string, map<MetricLabels, Metric>>
      reads this
    {
      ContentsOf(collectors)
    }

    constructor ()
      ensures Valid() && collectors == map[] && hooks == map[]
    {
      collectors := map[];
      hooks := map[];
    }

    /** Removes the metric from every collector, then drops the collectors left empty. */
    method DeregisterLocked(metric: Metric)
      requires Valid()
      modifies this`collectors
      ensures Valid()
      ensures metric !in Members()
      ensures collectors == SweptAll(old(collectors), metric)
      ensures Contents() == Without(old(Contents()), metric)
    {
      ghost var c0 := collectors;
      var names := collectors.Keys;
      var toErase: set<string> := {};
      while names != {}
        invariant SweepState(c0, collectors, names, toErase, metric)
        decreases names
      {
        var n :| n in names;
        SweepStep(c0, collectors, names, toErase, metric, n);
        collectors := collectors[n := collectors[n].RemoveMetric(metric)];
        if collectors[n].Empty() {
          toErase := toErase + {n};
        }
        names := names - {n};
      }
      SweepDone(c0, collectors, toErase, metric);
      collectors := collectors - toErase;
      SweptAllHealthy(c0, metric);
      SweptAllMembers(c0, metric);
      SweptAllContents(c0, metric);
    }

    /**
     * register_metric: the metric first leaves the registry it was in; it is then added to
     * the collector of `name`, created on demand, and names this registry only when taken.
     */
    method RegisterMetric(name: string, labels: MetricLabels, metric: Metric) returns (ok: bool)
      requires Valid()
      requires metric.registry != null ==> metric.registry.Valid()
      modifies this, metric, metric.registry
      ensures Valid()
      ensures var base := if old(metric.registry) == this then SweptAll(old(collectors), metric) else old(collectors);
              var c := if name in base then base[name] else NewCollector();
              (ok <==> c.Accepts(labels, metric))
              && collectors == base[name := c.AddMetric(labels, metric).0]
      ensures metric.registry == if ok then this else null
      ensures ok ==> GetMetric(name, labels) == metric
      ensures hooks == old(hooks)
      ensures old(metric.registry) != null && old(metric.registry) != this ==>
                old(metric.registry).Valid() && metric !in old(metric.registry).Members()
    {
      ghost var previous := metric.registry;
      metric.Hide();
      assert previous != this ==> metric !in Members();
      ok := AddToCollector(name, labels, metric);
      assert previous != null && previous != this ==> metric !in previous.Members();
    }

    /** The second half of register_metric, once the metric is detached from every registry. */
    method AddToCollector(name: string, labels: MetricLabels, metric: Metric) returns (ok: bool)
      requires Valid() && metric.registry == null && metric !in Members()
      modifies this`collectors, metric`registry
      ensures Valid()
      ensures var c := if name in old(collectors) then old(collectors)[name] else NewCollector();
              (ok <==> c.Accepts(labels, metric)) && collectors == old(collectors)[name := c.AddMetric(labels, metric).0]
      ensures metric.registry == if ok then this else null
    {
      var collector := if name in collectors then collectors[name] else NewCollector();
      var r := collector.AddMetric(labels, metric);
      AddToCollectorsHealthy(collectors, name, labels, metric);
      ok := r.1;
      collectors := collectors[name := r.0];
      if ok {
        metric.registry := this;
      }
      forall m | m in Members()
        ensures m.registry == this
      {
        if m != metric {
          assert m in old(Members());
        }
      }
    }

    /** get_metric: the metric registered under `name` and `labels`, or null. */
    function GetMetric(name: string, labels: MetricLabels): (r: Metric?)
      reads this
      ensures r != null <==> name in Contents() && labels in Contents()[name]
      ensures r != null ==> r == Contents()[name][labels]
    {
      if name in collectors then collectors[name].GetMetric(labels) else null
    }

    /** register_hook: adds a hook unless one is registered under that name. */
    method RegisterHook(name: string, hook: int) returns (ok: bool)
      modifies this`hooks
      ensures ok <==> name !in old(hooks)
      ensures hooks == if ok then old(hooks)[name := hook] else old(hooks)
    {
      if name in hooks {
        return false;
      }
      hooks := hooks[name := hook];
      return true;
    }

    method DeregisterHook(name: string)
      modifies this`hooks
      ensures hooks == old(hooks) - {name}
    {
      hooks := hooks - {name};
    }
  }
}
