/**
 * The bank enumeration the extractors stamp onto records. Its member values live in a
 * constants module that is not part of this model, so a company column value is either
 * text taken from the transcript or one of the enumeration's members.
 */
module Constants {

  datatype BankType = JPMORGAN | GOLDMAN_SACHS

  datatype Company = Named(name: string) | Bank(bank: BankType)
}
