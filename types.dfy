// Values exchanged between the floating IP command handlers and their
// collaborators: the resource client, the configuration store and the display.

module FloatingIPTypes {

  datatype Option<+T> = None | Some(value: T)

  /** A region, identified by its slug ("nyc1", "ams3", ...). */
  datatype Region = Region(slug: string)

  /** One floating IP as the resource client reports it. */
  datatype FloatingIP = FloatingIP(ip: string, region: Region, dropletID: Option<int>)

  /** The body of a create call: a region slug and a droplet ID, "" and 0 meaning unset. */
  datatype CreateRequest = CreateRequest(region: string, dropletID: int)

  /** An error raised by a collaborator; handlers pass it on without looking inside. */
  datatype Fault = Fault(message: string)

  /** What a collaborator returns: a value, or its own error. */
  datatype Reply<+T> = Returned(value: T) | Failed(fault: Fault)

  /** The error kinds a handler can return. */
  datatype Error =
    | MissingArgs               // a required argument or flag is absent
    | Usage                     // region and droplet ID were both given to create
    | InvalidIp                 // get was given an empty address
    | Collaborator(fault: Fault) // returned unchanged from the client, config or display

  /** The resource-client operation a handler invoked, with its argument. */
  datatype Call =
    | CreateCall(req: CreateRequest)
    | GetCall(address: string)
    | DeleteCall(address: string)
    | ListCall

  /**
   * What one handler invocation did: the client call it made (if any),
   * the floating IPs it handed to the display (if any) and the error it
   * returned (None is Go's nil).
   */
  datatype Outcome = Outcome(called: Option<Call>, shown: Option<seq<FloatingIP>>, err: Option<Error>)

  /** A collaborator's optional error, as the handler's own return value. */
  function Lift(f: Option<Fault>): Option<Error> {
    match f
    case None => None
    case Some(fault) => Some(Collaborator(fault))
  }

  /** True of the errors a handler raises itself, before reaching any collaborator. */
  predicate IsValidation(e: Error) {
    !e.Collaborator?
  }

  /**
   * Shape shared by every handler's outcome: nothing is displayed unless the
   * client was called, a handler that skips the client always fails, and a
   * validation error never follows a client call or a display.
   */
  predicate WellFormed(o: Outcome) {
    && (o.shown.Some? ==> o.called.Some?)
    && (o.called.None? ==> o.shown.None? && o.err.Some?)
    && (o.err.Some? && IsValidation(o.err.value) ==> o.called.None?)
  }

  /** The create invariant: exactly one of region and droplet ID is set. */
  predicate ExactlyOneLocator(req: CreateRequest) {
    (req.region != "") != (req.dropletID != 0)
  }
}
