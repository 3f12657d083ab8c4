# Droplet public-IP resolution

This project models the core of a CI step that lists the droplets of a
DigitalOcean account, keeps those carrying a given tag, and publishes the
first public IPv4 address of each kept droplet as the step output
`server_ips`. The pipeline in `index.js` is pure apart from its I/O:

1. `drops.filter((d) => d.tags.includes(tag))` keeps the droplets whose tags
   contain the tag as an exact string, in listing order (`FilterByTag`).
2. `d.networks.v4.find((i) => i.type === "public")` picks the first public
   IPv4 entry of a droplet (`FindPublic`), and `.ip_address` reads its
   address (`PublicIp`). When no entry is public, `find` yields `undefined`
   and the read throws a TypeError. `PublicIp` returns `None` in that case.
3. `drops.map(...)` applies step 2 to every kept droplet (`SelectIps`). One
   throw rejects the promise. The `.catch` handler then marks the run failed,
   and nothing is published. That is `Failure(NoPublicAddress)`. Otherwise
   the whole list is published.

`Resolve(ds, tag)` composes the three steps. It takes the droplet listing as a
parameter instead of fetching it.

Files: `wrappers.dfy` (module `Wrappers`: `Option`, `Result`) and
`droplet_ips.dfy` (module `DropletIps`: the data model, the pipeline and its
properties). `MatchIndices` and `MatchSet` are reference definitions of
"the droplets that carry the tag": the first is the strictly increasing list
of their listing positions, the second is the set of those positions. The
lemmas relate the pipeline to them.

The code takes exactly one tag (`index.js:7`, `:15`) and hard-codes the
address type `"public"` (`index.js:21`); the model does the same.

The count of addresses is stated twice on purpose: `Resolve` ties it to
`MatchIndices` (one address per matching position, which also fixes the order),
and `ResolveLength` ties it to `MatchSet`, the plain set of positions whose
droplet carries the tag, which does not depend on any enumeration order.

## Model

| member | source | states |
|---|---|---|
| DropletIps.FilterByTag | index.js:15 | every kept droplet carries the tag (`HasTag`, the exact-string `d.tags.includes(tag)`); every listed droplet carrying the tag is kept; there are no more kept droplets than listed (where each kept droplet comes from: `FilterAt`) |
| DropletIps.MatchIndices | index.js:15 | reference definition: the strictly increasing positions of exactly the droplets that carry the tag |
| DropletIps.FilterAppend | index.js:15 | filtering a concatenated listing is the concatenation of the filtered parts (`Array.prototype.filter` is element-wise and keeps order) |
| DropletIps.FilterLength | index.js:15 | the filter keeps one droplet per position that carries the tag |
| DropletIps.FilterAt | index.js:15 | the k-th kept droplet is the droplet at the k-th matching position, so the filter keeps listing order |
| DropletIps.FilterCount | index.js:15 | the number of kept droplets equals the number of listed droplets whose tags include the tag |
| DropletIps.FindPublic | index.js:21 | a found entry is an entry of the list that is public (`IsPublic`, the strict `i.type === "public"`); nothing is found exactly when no entry is public |
| DropletIps.FindPublicFirst | index.js:21 | `find` returns the first public entry: earlier non-public entries and later public entries are ignored |
| DropletIps.PublicIp | index.js:21 | an address exists exactly when some v4 entry is public, and it is the address of a public entry of the droplet |
| DropletIps.PublicIpIsFirst | index.js:21 | the address read is the `ip_address` of the first v4 entry whose type is `"public"` |
| DropletIps.SelectIps | index.js:20-22 | the map succeeds exactly when every droplet has a public address; then it yields one address per droplet, position by position |
| DropletIps.SelectAppend | index.js:20-22 | mapping a concatenation succeeds exactly when both parts succeed, and then yields the concatenated results |
| DropletIps.Resolve | index.js:15-28 | the whole pipeline, `SelectIps(FilterByTag(ds, tag))`, with `Failure` for the TypeError caught at `:27-28`: it fails exactly when some droplet carrying the tag has no public v4 entry (an untagged droplet cannot cause failure); on success there is exactly one address per matching position, and the k-th address is the public address of the k-th droplet carrying the tag, in listing order |
| DropletIps.ResolveLength | index.js:15-22 | on success the output length equals the number of droplets whose tags include the tag |
| DropletIps.ResolveSourced | index.js:15-22 | every published address is the first public address of some droplet that carries the tag |
| DropletIps.ResolveNoMatch | index.js:15-25 | when no droplet carries the tag, the run succeeds with the empty list, not a failure |
| DropletIps.ResolveAppend | index.js:15-22 | resolving `a + b` succeeds exactly when resolving `a` and resolving `b` both succeed, and then yields their concatenation |
| DropletIps.ResolveSkipsUntagged | index.js:15-21 | inserting a droplet without the tag anywhere in the listing, whatever its networks, leaves the outcome unchanged |

## Left out

- Reading the inputs `digital-ocean-key` and `tag` (`index.js:6-7`): pipeline configuration I/O. The tag is a parameter.
- Creating the client and listing droplets (`index.js:8`, `:12-13`): network I/O by a third-party library. The listing parameter is whatever the one `list()` call, made without page arguments, returns; no merging of pages is modelled. A rejected listing only reaches `.catch` and fails the run; the model does not restate that propagation.
- Logging (`index.js:10`, `:18`) and publishing or failing through `core.setOutput` / `core.setFailed` (`index.js:25`, `:28`, `:31`): output I/O. The published value is the `Success` payload and a failed run is `Failure`.
- The text of the TypeError message passed to `core.setFailed`: it depends on the JavaScript engine. The model keeps only the error kind, `NoPublicAddress`.
- The `ips || []` guard (`index.js:25`): `map` always returns an array, so the guard never applies.
- The promise chain (`index.js:12-29`): it has one asynchronous step and is modelled as sequential composition with failure propagation.
- Malformed listing records: a droplet without `tags` or `networks.v4`, and a v4 entry without `type` or `ip_address`. The listing is taken to be well formed, so `tags` and `v4` are sequences and each entry has a string `kind` and `ip`. In particular a public entry lacking `ip_address` would make `index.js:21` put `undefined` into the list instead of throwing; `Net` cannot represent that case.
- The vendored tests of the DigitalOcean client library (`node_modules/digitalocean/test/digitalocean/tag_test.js`): they test third-party HTTP request mapping, not this code.
