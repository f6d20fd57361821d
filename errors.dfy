/** The error kinds the engine raises (the exception classes of the C++ engine). */
module Errors {

  datatype CspError =
    | UnassignedValueExtraction    // reading the value of an unassigned variable
    | OverAssignment               // assigning an assigned variable
    | AssignmentIndexOutOfRange    // assigning by an index past the domain
    | UncontainedValue             // assigning or looking up a value not in the domain
    | DomainAlteration             // changing the domain of an assigned variable
    | StaleIndex                   // the assignment index no longer fits the domain (see setDomain)
    | DuplicateVariable            // a constraint lists one variable twice
    | DuplicateConstraint(id: nat) // a problem lists one constraint twice
}
