/** The fixed labels and the seed holiday list of the 2026 calendar. */
module Constants {

  /** A seed entry: an ISO date and the holiday's title. */
  datatype HolidayEntry = HolidayEntry(date: string, title: string)

  /** Column headings, Monday first. */
  const DaysOfWeek: seq<string> := ["Thứ 2", "Thứ 3", "Thứ 4", "Thứ 5", "Thứ 6", "Thứ 7", "Chủ Nhật"]

  /** Month names, January first. */
  const Months: seq<string> := [
    "Tháng 1", "Tháng 2", "Tháng 3", "Tháng 4", "Tháng 5", "Tháng 6",
    "Tháng 7", "Tháng 8", "Tháng 9", "Tháng 10", "Tháng 11", "Tháng 12"
  ]

  /** Vietnamese public holidays of 2026, in calendar order. */
  const Holidays2026: seq<HolidayEntry> := [
    HolidayEntry("2026-01-01", "Tết Dương Lịch"),
    HolidayEntry("2026-02-17", "Tết Nguyên Đán (Mùng 1)"),
    HolidayEntry("2026-02-18", "Tết Nguyên Đán (Mùng 2)"),
    HolidayEntry("2026-02-19", "Tết Nguyên Đán (Mùng 3)"),
    HolidayEntry("2026-03-26", "Giỗ tổ Hùng Vương"),
    HolidayEntry("2026-04-30", "Giải phóng miền Nam"),
    HolidayEntry("2026-05-01", "Quốc tế Lao động"),
    HolidayEntry("2026-09-02", "Quốc khánh"),
    HolidayEntry("2026-12-25", "Giáng sinh")
  ]
}
