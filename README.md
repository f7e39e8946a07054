# k8s-pvc-usage, modelled in Dafny

k8s-pvc-usage is a Prometheus exporter. It asks the Kubernetes API for the
cluster's nodes, and asks each node's kubelet for its stats summary. It keeps
one entry per pod volume that is backed by a PersistentVolumeClaim (PVC) and
has positive capacity. For each such PVC it publishes four gauges:
available percent, available bytes, used percent and used bytes. Every series
is labelled with the claim's name, its namespace and custom labels read once,
at start-up, from a pod-annotations file.

This project models, and proves properties of:

- **`pvc_usage.dfy`** (module `PvcUsage`): the aggregation in `lib.go`.
  - The records: `Volume`, `Pod`, `PvcRef`, `PvcStats`.
  - Per-node filtering (`GetNodePvcUsageCtx`), cluster-wide concatenation
    (`GetPvcUsageCtx`) and the percentage `PvcStats.Usage`.
  - The two loops are `method`s. Each is proved equal to a recursive
    specification function (`NodePvcUsage`, `ClusterPvcUsage`), and lemmas
    describe those functions exactly.
  - The HTTP client and JSON decoding are not modelled. The input is the
    node listing, each node paired with the outcome of its stats request
    (`StatsResponse`: `Failed`, or the decoded pods).
- **`annotations.dfy`** (module `Annotations`): `readAnnotations` in
  `cmd/k8s-pvc-usage/metrics.go`.
  - The file is given as its lines, or as unreadable.
  - The scanning loop is a method proved against the specification function
    `Parse`.
- **`go_strings.dfy`** (module `GoStrings`): the parts of Go's `strings`
  package the parser uses: `HasPrefix`, `TrimPrefix`, `Trim`, `TrimSpace`,
  and `SplitN(s, "=", 2)` on a string that holds `=`.
- **`metrics.dfy`** (module `Metrics`): the exporter's gauge state, as the
  class `GaugeSink`.
  - Its constructor is `init` in `metrics.go`: custom labels and label names.
  - `Scrape` is the body of the `scrape` closure in `cmd/k8s-pvc-usage/main.go`.
  - `Reset` is the reset critical section.
  - A gauge vector is a `map` from label tuples to values. The specification
    function `Written` states what a sequence of writes leaves in it.
- **`wrappers.dfy`**: an `Option` type, standing for Go's optional `*T` fields that may be `nil`.

## Model

| member | source | states |
|---|---|---|
| PvcUsage.Qualifies | lib.go:110 | defines the volumes that yield an entry: those with a claim and capacity > 0, the negation of the `continue` guard |
| PvcUsage.ToStats | lib.go:114-120 | defines the entry of a qualifying volume: the claim's name and namespace, and the volume's available, capacity and used bytes |
| PvcUsage.Flatten | lib.go:108-109 | defines a node's volumes as its pods' volumes, pod after pod |
| PvcUsage.Aggregate | lib.go:108-122 | defines a node's entries: `ToStats` of each qualifying volume, in order (described exactly by `AggregateExact`) |
| PvcUsage.ClusterPvcUsage | lib.go:87-93 | defines the cluster result as the node results concatenated in listing order |
| PvcUsage.ClusterSplitAt | lib.go:87-93 | the cluster result splits at any position of the listing |
| PvcUsage.NodePvcUsage | lib.go:95-106 | a node whose stats request fails contributes no entries |
| PvcUsage.GetNodePvcUsage | lib.go:95-125 | the nested pod/volume loop returns exactly `NodePvcUsage` of the node's response: nothing on error, otherwise one entry per qualifying volume, in pod and volume order |
| PvcUsage.GetPvcUsage | lib.go:87-93 | the node loop returns exactly `ClusterPvcUsage`: the per-node results concatenated in listing order |
| PvcUsage.AggregateExact | lib.go:108-122 | the i-th entry comes from the i-th qualifying volume, with name and namespace from its claim and its three byte counts copied. The source positions increase. A volume yields an entry iff it has a claim and capacity > 0 |
| PvcUsage.AggregateMembership | lib.go:108-122 | an entry is in a node's result iff some qualifying volume yields it |
| PvcUsage.AggregatePositiveCapacity | lib.go:110 | every entry has positive capacity, so `Usage` divides by a positive number |
| PvcUsage.AggregateConcat | lib.go:108-122 | filtering distributes over concatenation of volume lists |
| PvcUsage.FlattenConcat | lib.go:108-109 | a node's volumes are those of its pods, pod after pod |
| PvcUsage.NodePvcUsageByPod | lib.go:108-122 | a node's entries are those of the pods before pod i, then pod i's own, then those after it |
| PvcUsage.NodePvcUsageLength | lib.go:108-122 | a node yields at most one entry per volume |
| PvcUsage.ClusterConcat | lib.go:87-93 | the cluster result distributes over splitting the node listing |
| PvcUsage.ClusterByNode | lib.go:87-93 | node k's result sits between the results of the nodes before and after it |
| PvcUsage.ClusterSingle | lib.go:87-93 | a one-node listing yields that node's result |
| PvcUsage.ClusterSkipsFailedNode | lib.go:87-106 | a node whose request fails is skipped without affecting the others: the result equals that of the listing without it |
| PvcUsage.ClusterMembership | lib.go:87-93 | an entry is in the cluster result iff it is in some listed node's result |
| PvcUsage.Usage | lib.go:127-133 | capacity <= 0 gives 0; otherwise usage × capacity = 100 × used |
| PvcUsage.UsageBounds | lib.go:127-133 | when 0 <= used <= capacity, usage lies in [0, 100] |
| Annotations.DefaultPrefixValid | cmd/k8s-pvc-usage/config.go:20 | the default prefix `k8s-pvc-usage/` contains no `=`, so the parser's precondition holds for it |
| Annotations.Accepts | cmd/k8s-pvc-usage/metrics.go:76 | defines the kept lines: those that start with the prefix and contain `=` |
| Annotations.Body | cmd/k8s-pvc-usage/metrics.go:83 | defines the text that is split: the line without its prefix, with surrounding white space trimmed |
| Annotations.SplitLine | cmd/k8s-pvc-usage/metrics.go:83-87 | the per-line steps of the loop (strip the prefix, trim space, split at the first `=`, trim quotes from the value) give exactly `ParseLine` of the line |
| Annotations.ParseLine | cmd/k8s-pvc-usage/metrics.go:83-87 | an accepted line gives a key free of `=` and an unquoted value. The trimmed body starts with key followed by `=`. The value is the rest of the body with surrounding double quotes trimmed |
| Annotations.Parse | cmd/k8s-pvc-usage/metrics.go:74-88 | there are at most as many labels as lines, and every label is well formed |
| Annotations.FileAnnotations | cmd/k8s-pvc-usage/metrics.go:62-69 | an unreadable file yields no labels |
| Annotations.ReadAnnotations | cmd/k8s-pvc-usage/metrics.go:56-91 | the returned keys and values are exactly the keys and values of the file's labels, parallel and in line order |
| Annotations.AcceptedIndicesExact | cmd/k8s-pvc-usage/metrics.go:76-81 | the accepted positions increase, and a line is accepted iff it has the prefix and contains `=` |
| Annotations.ParseExact | cmd/k8s-pvc-usage/metrics.go:74-88 | the k-th label is parsed from the k-th accepted line, and there is one label per accepted line |
| Annotations.ParseConcat | cmd/k8s-pvc-usage/metrics.go:74-88 | parsing two runs of lines concatenates their labels |
| Annotations.RejectedLineIgnored | cmd/k8s-pvc-usage/metrics.go:76-81 | a rejected line contributes nothing, wherever it stands |
| Annotations.KeysOf | cmd/k8s-pvc-usage/metrics.go:86 | the keys list is parallel to the labels, key by key |
| Annotations.ValuesOf | cmd/k8s-pvc-usage/metrics.go:87 | the values list is parallel to the labels, value by value |
| Metrics.Reading | cmd/k8s-pvc-usage/main.go:98-101 | defines the value each gauge gets for a PVC: `avail`, the available bytes, `Usage`, and the used bytes |
| Metrics.Written | cmd/k8s-pvc-usage/main.go:96-103 | defines a gauge after a scrape: the old map updated at each PVC's label tuple with its reading, in list order |
| Metrics.LabelTuple | cmd/k8s-pvc-usage/main.go:97 | a series' label values are the claim's name, its namespace, then the custom values |
| Metrics.WrittenKeys | cmd/k8s-pvc-usage/main.go:96-103 | a scrape never removes a series: the keys afterwards are the old keys plus the tuples written |
| Metrics.WrittenKeepsOthers | cmd/k8s-pvc-usage/main.go:96-103 | a series that no written PVC maps to keeps its old value |
| Metrics.WrittenLastWins | cmd/k8s-pvc-usage/main.go:96-103 | if no later PVC shares pvc i's tuple, that series holds pvc i's reading |
| Metrics.WrittenFromEmpty | cmd/k8s-pvc-usage/main.go:96-103 | writing into an empty gauge leaves exactly the written tuples, each holding the reading of a PVC with that tuple |
| Metrics.WrittenShape | cmd/k8s-pvc-usage/main.go:96-103 | the four gauges keep one shared key set, and every series keeps one value per label name |
| Metrics.GaugeSink.constructor | cmd/k8s-pvc-usage/metrics.go:12-54 | the custom keys and values are those of the annotations file. The label names are `name`, `namespace` and then the custom keys. The gauges start empty |
| Metrics.GaugeSink.Scrape | cmd/k8s-pvc-usage/main.go:86-106 | each gauge becomes its old map with every fetched PVC's reading written at its label tuple, in order. The counter is the number of PVCs fetched. The sink invariant is kept |
| Metrics.GaugeSink.WriteAll | cmd/k8s-pvc-usage/main.go:96-103 | the loop performs four writes per PVC, in order, and counts them |
| Metrics.GaugeSink.Reset | cmd/k8s-pvc-usage/main.go:136-148 | all four gauges are empty afterwards. The counter and the invariant are kept |
| Metrics.ResetThenScrape | cmd/k8s-pvc-usage/main.go:136-151 | after a reset and the scrape its refresh triggers, each of the four gauges equals what writing the PVCs just fetched into an empty gauge gives (`Written` from `map[]`). By `WrittenFromEmpty` and `WrittenLastWins` it holds exactly their series with their readings, and no stale one. Its key set is the fetched PVCs' label tuples |
| GoStrings.HasPrefix | cmd/k8s-pvc-usage/metrics.go:76 | defines `strings.HasPrefix`: the prefix is an initial segment |
| GoStrings.TrimPrefix | cmd/k8s-pvc-usage/metrics.go:83 | `strings.TrimPrefix`: with the prefix present, prefix + result is the input; otherwise the input is unchanged |
| GoStrings.TrimSpace | cmd/k8s-pvc-usage/metrics.go:83 | `strings.TrimSpace`: a non-empty result neither starts nor ends with white space |
| GoStrings.Trim | cmd/k8s-pvc-usage/metrics.go:87 | `strings.Trim`: the result is no longer than the input, and a non-empty result neither starts nor ends with a character of the cut set |
| GoStrings.TrimIsSlice | cmd/k8s-pvc-usage/metrics.go:87 | `strings.Trim` removes only cut-set characters, and only from the two ends: the result is a slice `s[i..j]` of the input with every character outside it in the cut set |
| GoStrings.TrimKeeps | cmd/k8s-pvc-usage/metrics.go:83 | trimming keeps every character that is not in the cut set; so the `=` of an accepted line survives `TrimSpace` |
| GoStrings.SplitFirst | cmd/k8s-pvc-usage/metrics.go:84 | `strings.SplitN(s, "=", 2)` on a string holding `=`: the input is the first part, then `=`, then the second part, and the first part holds no `=` |

## Left out

- Concurrency is not modelled: goroutines, the mutex, tickers, the debounce, `select`, cancellation and signal handling. Scrape and reset each run whole under one mutex, so each is one atomic method.
- The refresh channel is not modelled. The source's `refresh <- true` (cmd/k8s-pvc-usage/main.go:151) is a blocking send on a buffer of one, not a fire-and-forget drop. The model only states the reset-then-scrape effect.
- The scrape fetches the PVC list while holding the lock (cmd/k8s-pvc-usage/main.go:88-96). The model follows this code, and does not model fetching before locking.
- The HTTP client (client.go), request building, JSON decoding and logging are not modelled. `GetNodesCtx` returns whatever it decoded, even on error, so the node listing is an input of the model.
- Configuration (config.go) is not modelled, apart from the default annotation prefix (`DefaultPrefix`). The path and the prefix are parameters.
- `PvcStats.Avail` is not part of this model. Its value reaches `Scrape` as the parameter `avail`.
- float64 is modelled as `real`: no rounding, no infinities, no NaN. A NaN capacity would pass Go's `<= 0` guard; here it cannot arise.
- Strings are modelled as `seq<char>`, not as UTF-8 bytes.
- `TrimSpace` covers ASCII white space plus U+0085 and U+00A0. Other Unicode space characters are not included.
- Opening the file and `bufio.Scanner` line splitting are not modelled. The scanner's 64 KiB token limit, which ends the loop early, is left out. The file is given as its lines, or as unreadable.
- Annotations.ReadAnnotations: requires a prefix without `=`. If the prefix held `=`, a line equal to the prefix would be accepted, splitting its empty body gives one part, and the source panics at `bits[1]`. The model does not cover that panic. The default prefix has no `=` (`DefaultPrefixValid`).
- The counter is Go's `uint`; it is modelled as `nat`, without wrap-around.
- Prometheus registration, metric names and help texts, and the `/metrics` HTTP server are not modelled.
- `Volume.time` is kept only as an optional instant (`Option<int>`); it takes no part in the computation.
- A failed node listing still yields whatever was decoded (lib.go:78-84); the model takes the listing as given.
- The send at cmd/k8s-pvc-usage/main.go:151 blocks while the buffer of one is full; the model does not capture that blocking.
