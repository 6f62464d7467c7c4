# Floating IP commands

A Dafny model of the `floating-ip` (alias `fip`) command group of the doit
command-line client: the handlers for `create`, `get`, `delete` and `list`.
Each handler validates its positional arguments and flags, makes at most one
call on the floating IP resource client, and either returns an error or hands
a collection of floating IPs to the display.

The collaborators are parameters of the model:

- the resource client as a total function from a request (a `CreateRequest`,
  an address) to its reply (`Returned(value)` or `Failed(fault)`), and the
  client's list reply as a value;
- the configuration store as the values read (`region`, `dropletID` for
  create, whose read errors the handler ignores) or as a reply (the region
  filter for list, whose read error the handler returns);
- the display as a function from the floating IPs handed to it to the error it
  returns.

Every handler yields an `Outcome`: the client call it made (if any), the
floating IPs it displayed (if any) and the error it returned. `WellFormed`
states the shape they all share: nothing is displayed without a client call, a
handler that skips the client always fails, and a validation error
(`MissingArgs`, `Usage`, `InvalidIp`) never follows a client call.

Files: `types.dfy` (module `FloatingIPTypes`, the values) and
`floating_ips.dfy` (module `FloatingIPCommands`, the handlers and the
properties of the list filter). Create, get and delete are straight-line code
and are modelled as functions; list filters the client's entries in a loop and
is modelled as a method whose loop is proved against the recursive
specification `Filtered`.

Three checks one might expect are absent from the code:

- get refuses only the empty string; it does not trim, so an address of
  blanks reaches the client (`GetDoesNotTrim`).
- delete checks only the argument count; an empty address is passed to the
  client.
- create's request always carries both locators as read; the unset one stays
  at its zero value (`""` or `0`).

## Model

| member | source | states |
|---|---|---|
| FloatingIPCommands.RunCreate | commands/floating_ips.go:44-72 | no locator gives MissingArgs and both give Usage, without a client call; the client is called exactly when one locator is set, with a request carrying both values as read and satisfying ExactlyOneLocator; a client error is returned unchanged with nothing displayed; on success exactly the one created IP is displayed and the display's error returned, so the command succeeds exactly when the display does |
| FloatingIPCommands.CreateRequestKeepsZeroValue | commands/floating_ips.go:59-62 | when one locator is set, the request leaves the other at its zero value |
| FloatingIPCommands.RunGet | commands/floating_ips.go:75-95 | an argument count other than one gives MissingArgs and a single empty argument gives InvalidIp, both without a client call; otherwise the client is asked for that address, its error is returned unchanged with nothing displayed, and on success exactly the fetched IP is displayed and the command succeeds exactly when the display does |
| FloatingIPCommands.GetDoesNotTrim | commands/floating_ips.go:84-88 | only the empty string is refused; an address of one blank is passed to the client as is |
| FloatingIPCommands.RunDelete | commands/floating_ips.go:98-108 | the client is skipped exactly when the argument count is not one, and then MissingArgs is returned; otherwise the result is exactly the client's delete error for the argument, nil exactly when the client's is; nothing is ever displayed |
| FloatingIPCommands.DeleteSilentOnSuccess | commands/floating_ips.go:105-107 | a delete the client accepts returns no error and displays nothing |
| FloatingIPCommands.RunList | commands/floating_ips.go:111-138 | a configuration error is returned unchanged before any client call; a client list error is returned unchanged with nothing displayed; otherwise the loop displays exactly Filtered(client list, filter) and returns the display's error, so the command succeeds exactly when the display does |
| FloatingIPCommands.FilteredAppend | commands/floating_ips.go:125-133 | one more loop step extends the filtered list by the entry exactly when the filter keeps it |
| FloatingIPCommands.FilteredNoLonger | commands/floating_ips.go:124-134 | the displayed list is never longer than the client's list |
| FloatingIPCommands.FilteredEmptyIsIdentity | commands/floating_ips.go:127 | an empty region filter displays the client's list unchanged |
| FloatingIPCommands.FilteredMembers | commands/floating_ips.go:125-133 | an entry is displayed exactly when the client returned it and the filter keeps it; with a non-empty filter every displayed entry's region slug equals the filter |
| FloatingIPCommands.FilteredCounts | commands/floating_ips.go:125-133 | each kept entry is displayed as many times as the client returned it, every other entry not at all |
| FloatingIPCommands.FilteredPreservesOrder | commands/floating_ips.go:125-133 | the displayed list is a subsequence of the client's list: the original order is kept |
| FloatingIPCommands.FilteredIdempotent | commands/floating_ips.go:127-129 | filtering the displayed list again with the same filter changes nothing |
| FloatingIPCommands.FilterExample | commands/floating_ips.go:127-133 | filter "nyc1" on entries a in nyc1 and b in ams3 keeps exactly [a] |

## Left out

- `FloatingIP()` (commands/floating_ips.go:14-41): registration of the commands, flags, aliases and help text with the command framework; it has no behaviour beyond declaring them.
- The resource client's `Create`, `Get`, `Delete` and `List` are remote HTTP calls; they appear only as their replies.
- The configuration store's `GetString` and `GetInt`: only the values (or, for list, the read error) reach the model; the values create falls back to when a read fails are the store's concern.
- The display's rendering and output format; the model records only the sequence handed to it and the error it returns.
- The diagnostic print of the client error in create (commands/floating_ips.go:66): output only, the returned error is the same.
- Error message texts: the model keeps error kinds, and collaborator errors as opaque `Fault` values.
- The client's floating IP carries its region as a pointer; an entry without a region would make the list filter dereference nothing when the filter is non-empty. The client's types are not part of this model, so every entry here has a region.
- `dropletID` is a Go `int`; the handler only compares it with 0 and passes it on, so the model uses an unbounded `int`.
